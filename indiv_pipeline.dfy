/**
 * indiv.py: the rich variant. Each chunk's reply is scanned line by line for
 * device and software names, every record carries both lists, and one CSV
 * is written per source document.
 */
module IndivPipeline {
  import opened Optional
  import opened Seqs
  import opened Strings
  import Paths
  import opened Sanitizer
  import opened Chunker
  import opened Metadata
  import opened Outputs

  /** The chunk size `process_document` passes to the chunker. */
  const ChunkSize := 500
  const OutputSuffix := "_report_version.csv"

  // ---------------------------------------------------------------------
  // search_xr_usage: parsing the reply
  // ---------------------------------------------------------------------

  datatype Category = Device | Software

  /** A line the parser looks at: it starts with "1." or "2.". */
  predicate IsListLine(line: string)
  {
    StartsWith(line, "1.") || StartsWith(line, "2.")
  }

  predicate MentionsDevice(line: string)
  {
    Contains(Lower(line), "hardware") || Contains(Lower(line), "device")
  }

  predicate MentionsSoftware(line: string)
  {
    Contains(Lower(line), "software")
  }

  /**
   * The list a reply line goes to. Device words are looked for first, so a line
   * naming both hardware and software counts as a device line.
   */
  function Route(line: string): Option<Category>
  {
    if !IsListLine(line) then None
    else if MentionsDevice(line) then Some(Device)
    else if MentionsSoftware(line) then Some(Software)
    else None
  }

  /** `line[2:].strip()`: the stored item, without the "1." or "2." marker. */
  function Item(line: string): string
  {
    Strip(if |line| >= 2 then line[2..] else "")
  }

  /** What one line adds to the list of category `cat`. */
  function Picked(line: string, cat: Category): seq<string>
  {
    if Route(line) == Some(cat) then [Item(line)] else []
  }

  function PickFn(cat: Category): string -> seq<string>
  {
    line => Picked(line, cat)
  }

  /** The items of category `cat` found in `lines`, in line order. */
  function RoutedItems(lines: seq<string>, cat: Category): seq<string>
  {
    FlatMap(lines, PickFn(cat))
  }

  /** What `search_xr_usage` returns: `(None, None, None)` on an API error, else the report and the two joined lists. */
  datatype Analysis = ApiError | Found(report: string, deviceNames: string, softwareNames: string)

  /** The result of `search_xr_usage` for a reply (`None` standing for an `OpenAIError`). */
  function Analyze(reply: Option<string>): Analysis
  {
    match reply
    case None => ApiError
    case Some(content) =>
      var result := Strip(content);
      var lines := SplitOn(result, '\n');
      Found(result, Join(RoutedItems(lines, Device), ", "), Join(RoutedItems(lines, Software), ", "))
  }

  lemma RoutedItemsSnoc(lines: seq<string>, line: string, cat: Category)
    ensures RoutedItems(lines + [line], cat) == RoutedItems(lines, cat) + Picked(line, cat)
  {
    FlatMapSnoc(lines, line, PickFn(cat));
  }

  /** One step of the parsing loop, in the terms of its branches. */
  lemma RoutedItemsStep(lines: seq<string>, i: nat)
    requires i < |lines|
    ensures RoutedItems(lines[..i + 1], Device) == RoutedItems(lines[..i], Device)
      + (if IsListLine(lines[i]) && MentionsDevice(lines[i]) then [Item(lines[i])] else [])
    ensures RoutedItems(lines[..i + 1], Software) == RoutedItems(lines[..i], Software)
      + (if IsListLine(lines[i]) && !MentionsDevice(lines[i]) && MentionsSoftware(lines[i]) then [Item(lines[i])] else [])
  {
    assert lines[..i + 1] == lines[..i] + [lines[i]];
    RoutedItemsSnoc(lines[..i], lines[i], Device);
    RoutedItemsSnoc(lines[..i], lines[i], Software);
  }

  /**
   * `search_xr_usage(chunk)` with the API call replaced by `oracle`: strip
   * the reply, then route each of its lines to the device or software list.
   */
  method SearchXrUsage(chunk: string, oracle: string -> Option<string>) returns (analysis: Analysis)
    ensures analysis == Analyze(oracle(chunk))
  {
    var reply := oracle(chunk);
    if reply.None? {
      return ApiError;
    }
    var result := Strip(reply.value);
    var deviceNames: seq<string> := [];
    var softwareNames: seq<string> := [];
    var lines := SplitOn(result, '\n');
    for i := 0 to |lines|
      invariant deviceNames == RoutedItems(lines[..i], Device)
      invariant softwareNames == RoutedItems(lines[..i], Software)
    {
      var line := lines[i];
      if IsListLine(line) {
        if MentionsDevice(line) {
          deviceNames := deviceNames + [Item(line)];
        } else if MentionsSoftware(line) {
          softwareNames := softwareNames + [Item(line)];
        }
      }
      RoutedItemsStep(lines, i);
    }
    assert lines[..|lines|] == lines;
    analysis := Found(result, Join(deviceNames, ", "), Join(softwareNames, ", "));
  }

  // ---------------------------------------------------------------------
  // process_document: one record per chunk with a non-empty report
  // ---------------------------------------------------------------------

  /** One row of the per-document table. */
  datatype Record = Record(author: string, year: string, report: string,
                           deviceNames: string, softwareNames: string, fileName: string)

  /** The record a chunk yields: one when its report is present and non-empty, none otherwise. */
  function ChunkRecords(author: string, year: string, fileName: string,
                        oracle: string -> Option<string>, chunk: string): seq<Record>
  {
    match Analyze(oracle(chunk))
    case ApiError => []
    case Found(report, deviceNames, softwareNames) =>
      if report == "" then [] else [Record(author, year, report, deviceNames, softwareNames, fileName)]
  }

  function TagFn(author: string, year: string, fileName: string,
                 oracle: string -> Option<string>): string -> seq<Record>
  {
    chunk => ChunkRecords(author, year, fileName, oracle, chunk)
  }

  /** The records of a sequence of chunks, in chunk order. */
  function TaggedRecords(author: string, year: string, fileName: string,
                         oracle: string -> Option<string>, chunks: seq<string>): seq<Record>
  {
    FlatMap(chunks, TagFn(author, year, fileName, oracle))
  }

  /** The records `process_document` returns for a document of this content and basename. */
  function DocumentRecords(content: string, fileName: string, oracle: string -> Option<string>): seq<Record>
  {
    var authorYear := ExtractAuthorYear(fileName);
    TaggedRecords(authorYear.0, authorYear.1, fileName, oracle, SplitIntoChunks(content, ChunkSize))
  }

  lemma TaggedRecordsSnoc(author: string, year: string, fileName: string,
                          oracle: string -> Option<string>, chunks: seq<string>, i: nat)
    requires i < |chunks|
    ensures TaggedRecords(author, year, fileName, oracle, chunks[..i + 1])
      == TaggedRecords(author, year, fileName, oracle, chunks[..i]) + ChunkRecords(author, year, fileName, oracle, chunks[i])
  {
    assert chunks[..i + 1] == chunks[..i] + [chunks[i]];
    FlatMapSnoc(chunks[..i], chunks[i], TagFn(author, year, fileName, oracle));
  }

  /**
   * `process_document(document_path)`. Reading a path that `fs` does not
   * hold raises `FileNotFoundError`, modelled as `None`.
   */
  method ProcessDocument(fs: map<string, string>, documentPath: string, oracle: string -> Option<string>)
    returns (records: Option<seq<Record>>)
    ensures records == if documentPath in fs
      then Some(DocumentRecords(fs[documentPath], Paths.Basename(documentPath), oracle))
      else None
  {
    if documentPath !in fs {
      return None;
    }
    var content := fs[documentPath];
    var chunks := SplitIntoChunks(content, ChunkSize);
    var fileName := Paths.Basename(documentPath);
    var authorYear := ExtractAuthorYear(fileName);
    var author, year := authorYear.0, authorYear.1;
    var rows: seq<Record> := [];
    for i := 0 to |chunks|
      invariant rows == TaggedRecords(author, year, fileName, oracle, chunks[..i])
    {
      var analysis := SearchXrUsage(chunks[i], oracle);
      if analysis.Found? && analysis.report != "" {
        rows := rows + [Record(author, year, analysis.report, analysis.deviceNames, analysis.softwareNames, fileName)];
      }
      TaggedRecordsSnoc(author, year, fileName, oracle, chunks, i);
    }
    assert chunks[..|chunks|] == chunks;
    return Some(rows);
  }

  // ---------------------------------------------------------------------
  // main: one CSV per document that yields records
  // ---------------------------------------------------------------------

  /** `f"{os.path.splitext(sanitized_filename)[0]}_report_version.csv"`. */
  function OutputName(sanitized: string): string
  {
    Paths.SplitextRoot(sanitized) + OutputSuffix
  }

  /** What one listing entry leads to: a CSV when its document yields records, nothing otherwise. */
  function EntryOutputs(folder: string, fs: map<string, string>, oracle: string -> Option<string>,
                        filename: string): seq<CsvFile<Record>>
  {
    var sanitized := Sanitize(filename);
    if !EndsWith(sanitized, ".txt") then []
    else
      var documentPath := Paths.Join(folder, sanitized);
      if documentPath !in fs then []
      else
        var rows := DocumentRecords(fs[documentPath], Paths.Basename(documentPath), oracle);
        if rows == [] then [] else [CsvFile(Paths.Join(folder, OutputName(sanitized)), rows)]
  }

  function EntryFn(folder: string, fs: map<string, string>, oracle: string -> Option<string>)
    : string -> seq<CsvFile<Record>>
  {
    filename => EntryOutputs(folder, fs, oracle, filename)
  }

  /** The CSV files written for a folder listing, in listing order. */
  function FolderOutputs(folder: string, fs: map<string, string>, oracle: string -> Option<string>,
                         listing: seq<string>): seq<CsvFile<Record>>
  {
    FlatMap(listing, EntryFn(folder, fs, oracle))
  }

  /** The CSV files a run writes, given the folder variable, the listing, the file contents and the oracle. */
  function RunOutputs(env: Option<string>, listing: seq<string>, fs: map<string, string>,
                      oracle: string -> Option<string>): seq<CsvFile<Record>>
  {
    match DocumentFolder(env)
    case None => []
    case Some(folder) => FolderOutputs(folder, fs, oracle, listing)
  }

  lemma FolderOutputsSnoc(folder: string, fs: map<string, string>, oracle: string -> Option<string>,
                          listing: seq<string>, i: nat)
    requires i < |listing|
    ensures FolderOutputs(folder, fs, oracle, listing[..i + 1])
      == FolderOutputs(folder, fs, oracle, listing[..i]) + EntryOutputs(folder, fs, oracle, listing[i])
  {
    assert listing[..i + 1] == listing[..i] + [listing[i]];
    FlatMapSnoc(listing[..i], listing[i], EntryFn(folder, fs, oracle));
  }

  /**
   * `main()` of indiv.py. The listing stands for `os.listdir`, `fs` for the
   * files that can be opened, and the result for the CSV files written.
   * The read path is built from the sanitized name, as the source does.
   */
  method Run(env: Option<string>, listing: seq<string>, fs: map<string, string>,
             oracle: string -> Option<string>) returns (outputs: seq<CsvFile<Record>>)
    ensures outputs == RunOutputs(env, listing, fs, oracle)
  {
    if env.None? || env.value == "" {
      return [];
    }
    var folder := env.value;
    outputs := [];
    for i := 0 to |listing|
      invariant outputs == FolderOutputs(folder, fs, oracle, listing[..i])
    {
      var sanitized := Sanitize(listing[i]);
      if EndsWith(sanitized, ".txt") {
        var documentPath := Paths.Join(folder, sanitized);
        var records := ProcessDocument(fs, documentPath, oracle);
        if records.Some? && records.value != [] {
          var outputPath := Paths.Join(folder, Paths.SplitextRoot(sanitized) + OutputSuffix);
          outputs := outputs + [CsvFile(outputPath, records.value)];
        }
      }
      FolderOutputsSnoc(folder, fs, oracle, listing, i);
    }
    assert listing[..|listing|] == listing;
  }

  // ---------------------------------------------------------------------
  // Properties of the reply parser
  // ---------------------------------------------------------------------

  /** A list line that mentions hardware or a device goes to the device list, even when it also mentions software. */
  lemma DeviceWordsTakePrecedence(line: string)
    requires IsListLine(line) && MentionsDevice(line)
    ensures Route(line) == Some(Device)
  {
  }

  /** Only lines starting with "1." or "2." contribute to either list. */
  lemma OnlyListLinesRouted(line: string)
    requires Route(line).Some?
    ensures StartsWith(line, "1.") || StartsWith(line, "2.")
    ensures Route(line) == Some(Software) ==> MentionsSoftware(line) && !MentionsDevice(line)
  {
  }

  /** The line "1. Device - Oculus Quest (hardware)" is a device line. */
  lemma QuestLineRoute()
    ensures Route("1. Device - Oculus Quest (hardware)") == Some(Device)
  {
    var quest := "1. Device - Oculus Quest (hardware)";
    assert quest[..2] == "1.";
    ContainsAt(Lower(quest), "device", 3);
  }

  /** A marker, one space and a word-bounded text: the item is the text. */
  lemma ItemOfMarkedLine(marker: string, text: string)
    requires |marker| == 2 && |text| > 0 && !IsSpace(text[0]) && !IsSpace(text[|text| - 1])
    ensures Item(marker + " " + text) == text
  {
    assert (marker + " " + text)[2..] == " " + text;
    StripSingleLeadingSpace(text);
  }

  /** The line "2. Unity (software)" is a software line: it names neither hardware nor a device. */
  lemma UnityLineRoute()
    ensures Route("2. Unity (software)") == Some(Software)
  {
    var unity := "2. Unity (software)";
    assert unity[..2] == "2.";
    UnityLineLower();
    AbsentCharNotContained("2. unity (software)", "hardware", 'h');
    AbsentCharNotContained("2. unity (software)", "device", 'v');
    ContainsAt("2. unity (software)", "software", 10);
  }

  lemma UnityLineLower()
    ensures Lower("2. Unity (software)") == "2. unity (software)"
  {
  }

  /** Its item is the line without the marker and the space after it. */
  lemma UnityLineItem()
    ensures Item("2. Unity (software)") == "Unity (software)"
  {
    var unity := "2. Unity (software)";
    var item := "Unity (software)";
    assert unity[2..] == " " + item;
    StripSingleLeadingSpace(item);
  }

  lemma KeywordAfterMarker(line: string, keyword: string)
    requires IsListLine(line) && Contains(Lower(line), keyword)
    requires |keyword| > 0 && 'a' <= keyword[0] <= 'z'
    ensures !AllSpace(line[2..])
  {
    var lower := Lower(line);
    var i :| 0 <= i <= |lower| - |keyword| && StartsWith(lower[i..], keyword);
    assert lower[i] == keyword[0];
    assert lower[0] == LowerChar(line[0]) && lower[1] == LowerChar(line[1]);
    assert line[0] == "1."[0] || line[0] == "2."[0];
    assert line[1] == '.';
    assert i >= 2;
    assert !IsSpace(line[i]);
    assert line[2..][i - 2] == line[i];
  }

  /** Every stored item is non-empty and has no whitespace at either end. */
  lemma RoutedItemShape(line: string)
    requires Route(line).Some?
    ensures Item(line) != ""
    ensures !IsSpace(Item(line)[0]) && !IsSpace(Item(line)[|Item(line)| - 1])
  {
    var lower := Lower(line);
    var keyword := if Contains(lower, "hardware") then "hardware"
      else if Contains(lower, "device") then "device"
      else "software";
    assert IsListLine(line) && Contains(lower, keyword);
    KeywordAfterMarker(line, keyword);
    assert Item(line) == Strip(line[2..]);
    StripEmpty(line[2..]);
  }

  lemma PickedMember(line: string, cat: Category, item: string)
    ensures item in PickFn(cat)(line) <==> Route(line) == Some(cat) && item == Item(line)
  {
  }

  /** An item is in the list of `cat` exactly when some line routed to `cat` yields it. */
  lemma RoutedItemsMember(lines: seq<string>, cat: Category, item: string)
    ensures item in RoutedItems(lines, cat) <==>
      exists i :: 0 <= i < |lines| && Route(lines[i]) == Some(cat) && item == Item(lines[i])
  {
    FlatMapMember(lines, PickFn(cat), item);
    forall i | 0 <= i < |lines| {
      PickedMember(lines[i], cat, item);
    }
  }

  /** The lists follow the reply's line order: the lines of a concatenated reply give concatenated lists. */
  lemma RoutedItemsConcat(first: seq<string>, second: seq<string>, cat: Category)
    ensures RoutedItems(first + second, cat) == RoutedItems(first, cat) + RoutedItems(second, cat)
  {
    FlatMapConcat(first, second, PickFn(cat));
  }

  /** A line goes to at most one list. */
  lemma {:induction false} EachLineInOneList(lines: seq<string>)
    ensures |RoutedItems(lines, Device)| + |RoutedItems(lines, Software)| <= |lines|
  {
    if lines != [] {
      EachLineInOneList(lines[1..]);
      assert RoutedItems(lines, Device) == Picked(lines[0], Device) + RoutedItems(lines[1..], Device);
      assert RoutedItems(lines, Software) == Picked(lines[0], Software) + RoutedItems(lines[1..], Software);
    }
  }

  /** No line of `lines` is routed to `cat`. */
  predicate Unrouted(lines: seq<string>, cat: Category)
  {
    forall i :: 0 <= i < |lines| ==> Route(lines[i]) != Some(cat)
  }

  /** A joined list is "" exactly when no line is routed to it. */
  lemma JoinedListEmpty(lines: seq<string>, cat: Category)
    ensures Join(RoutedItems(lines, cat), ", ") == "" <==> Unrouted(lines, cat)
  {
    var items := RoutedItems(lines, cat);
    forall k | 0 <= k < |items| ensures |items[k]| > 0 {
      RoutedItemsMember(lines, cat, items[k]);
      var i :| 0 <= i < |lines| && Route(lines[i]) == Some(cat) && items[k] == Item(lines[i]);
      RoutedItemShape(lines[i]);
    }
    JoinEmpty(items, ", ");
    FlatMapEmpty(lines, PickFn(cat));
    assert forall i :: 0 <= i < |lines| ==> (PickFn(cat)(lines[i]) == [] <==> Route(lines[i]) != Some(cat));
  }

  /**
   * On a reply, a joined list is "" (not None) exactly when no line of the
   * stripped reply is routed to that list.
   */
  lemma AnalyzeListsEmpty(content: string)
    ensures var a := Analyze(Some(content));
      var lines := SplitOn(Strip(content), '\n');
      && a.Found?
      && (a.deviceNames == "" <==> Unrouted(lines, Device))
      && (a.softwareNames == "" <==> Unrouted(lines, Software))
  {
    var lines := SplitOn(Strip(content), '\n');
    assert Analyze(Some(content))
      == Found(Strip(content), Join(RoutedItems(lines, Device), ", "), Join(RoutedItems(lines, Software), ", "));
    JoinedListEmpty(lines, Device);
    JoinedListEmpty(lines, Software);
  }

  /** The report of a reply is empty exactly when the reply is only whitespace. */
  lemma AnalyzeReportEmpty(content: string)
    ensures Analyze(Some(content)).report == "" <==> AllSpace(content)
  {
    StripEmpty(content);
  }

  // ---------------------------------------------------------------------
  // Properties of process_document
  // ---------------------------------------------------------------------

  /** A chunk yields at most one record, and yields one exactly when the API answers with more than whitespace. */
  lemma ChunkYieldsRecord(author: string, year: string, fileName: string,
                          oracle: string -> Option<string>, chunk: string)
    ensures |ChunkRecords(author, year, fileName, oracle, chunk)| <= 1
    ensures ChunkRecords(author, year, fileName, oracle, chunk) != []
      <==> oracle(chunk).Some? && !AllSpace(oracle(chunk).value)
  {
    if oracle(chunk).Some? {
      AnalyzeReportEmpty(oracle(chunk).value);
    }
  }

  /** Records follow chunk order. */
  lemma TaggedRecordsConcat(author: string, year: string, fileName: string,
                            oracle: string -> Option<string>, first: seq<string>, second: seq<string>)
    ensures TaggedRecords(author, year, fileName, oracle, first + second)
      == TaggedRecords(author, year, fileName, oracle, first) + TaggedRecords(author, year, fileName, oracle, second)
  {
    FlatMapConcat(first, second, TagFn(author, year, fileName, oracle));
  }

  /**
   * Every record carries the document's author, year and file name and a
   * non-empty report, and holds what the API's reply to one of the chunks
   * was parsed into.
   */
  lemma TaggedRecordsMember(author: string, year: string, fileName: string,
                            oracle: string -> Option<string>, chunks: seq<string>, r: Record)
    requires r in TaggedRecords(author, year, fileName, oracle, chunks)
    ensures r.author == author && r.year == year && r.fileName == fileName && r.report != ""
    ensures exists i :: 0 <= i < |chunks| && oracle(chunks[i]).Some? && Analyze(oracle(chunks[i])) == Found(r.report, r.deviceNames, r.softwareNames)
  {
    FlatMapMember(chunks, TagFn(author, year, fileName, oracle), r);
    var i :| 0 <= i < |chunks| && r in TagFn(author, year, fileName, oracle)(chunks[i]);
    assert r in ChunkRecords(author, year, fileName, oracle, chunks[i]);
  }

  /**
   * There are at most as many records as chunks, and none exactly when no
   * chunk got a reply with more than whitespace.
   */
  lemma TaggedRecordsCount(author: string, year: string, fileName: string,
                           oracle: string -> Option<string>, chunks: seq<string>)
    ensures |TaggedRecords(author, year, fileName, oracle, chunks)| <= |chunks|
    ensures TaggedRecords(author, year, fileName, oracle, chunks) == []
      <==> forall i :: 0 <= i < |chunks| ==> oracle(chunks[i]).None? || AllSpace(oracle(chunks[i]).value)
  {
    var f := TagFn(author, year, fileName, oracle);
    forall i | 0 <= i < |chunks|
      ensures |f(chunks[i])| <= 1
      ensures f(chunks[i]) == [] <==> oracle(chunks[i]).None? || AllSpace(oracle(chunks[i]).value)
    {
      ChunkYieldsRecord(author, year, fileName, oracle, chunks[i]);
    }
    FlatMapAtMostOne(chunks, f);
    FlatMapEmpty(chunks, f);
  }

  /**
   * The records of a document: author and year come from its file name, at
   * most one record per chunk of 500 words, and none for a blank document
   * or when every API call fails.
   */
  lemma DocumentRecordsShape(content: string, fileName: string, oracle: string -> Option<string>)
    ensures var rows := DocumentRecords(content, fileName, oracle);
      && |rows| <= (|Words(content)| + ChunkSize - 1) / ChunkSize
      && (AllSpace(content) ==> rows == [])
      && ((forall chunk :: oracle(chunk).None?) ==> rows == [])
      && forall r :: r in rows ==> (r.author, r.year) == ExtractAuthorYear(fileName) && r.fileName == fileName
  {
    var authorYear := ExtractAuthorYear(fileName);
    var chunks := SplitIntoChunks(content, ChunkSize);
    ChunkCount(content, ChunkSize);
    NoChunks(content, ChunkSize);
    TaggedRecordsCount(authorYear.0, authorYear.1, fileName, oracle, chunks);
    forall r | r in DocumentRecords(content, fileName, oracle)
      ensures (r.author, r.year) == authorYear && r.fileName == fileName
    {
      TaggedRecordsMember(authorYear.0, authorYear.1, fileName, oracle, chunks, r);
    }
  }

  // ---------------------------------------------------------------------
  // Properties of main
  // ---------------------------------------------------------------------

  /**
   * What one listing entry writes: exactly one CSV, next to the document,
   * when the sanitized name ends in ".txt", the file at the sanitized path
   * exists and its records are not empty; the rows carry the sanitized name.
   */
  lemma EntryOutputsSpec(folder: string, fs: map<string, string>, oracle: string -> Option<string>,
                         filename: string)
    ensures var s := Sanitize(filename);
      var path := Paths.Join(folder, s);
      && (EntryOutputs(folder, fs, oracle, filename) != []
          <==> EndsWith(s, ".txt") && path in fs && DocumentRecords(fs[path], s, oracle) != [])
      && (EntryOutputs(folder, fs, oracle, filename) != [] ==>
          EntryOutputs(folder, fs, oracle, filename)
            == [CsvFile(Paths.Join(folder, OutputName(s)), DocumentRecords(fs[path], s, oracle))])
  {
    SanitizedHasNoSeparator(filename);
    Paths.BasenameOfJoin(folder, Sanitize(filename));
  }

  /**
   * The file is read under its sanitized name, not the listed one: an
   * entry whose sanitized path is absent writes nothing, whatever the
   * listed file holds.
   */
  lemma ReadsSanitizedPath(folder: string, fs: map<string, string>, oracle: string -> Option<string>,
                           filename: string)
    requires Paths.Join(folder, Sanitize(filename)) !in fs
    ensures EntryOutputs(folder, fs, oracle, filename) == []
  {
  }

  /** The CSV of one entry has rows, and every row names the entry by its sanitized ".txt" name. */
  lemma EntryOutputRows(folder: string, fs: map<string, string>, oracle: string -> Option<string>,
                        filename: string, out: CsvFile<Record>, r: Record)
    requires out in EntryOutputs(folder, fs, oracle, filename)
    ensures out.rows != []
    ensures r in out.rows ==> r.fileName == Sanitize(filename) && EndsWith(r.fileName, ".txt") && r.report != ""
    ensures r in out.rows ==> (r.author, r.year) == ExtractAuthorYear(r.fileName)
  {
    EntryOutputsSpec(folder, fs, oracle, filename);
    var s := Sanitize(filename);
    var path := Paths.Join(folder, s);
    assert out.rows == DocumentRecords(fs[path], s, oracle);
    if r in out.rows {
      var authorYear := ExtractAuthorYear(s);
      TaggedRecordsMember(authorYear.0, authorYear.1, s, oracle, SplitIntoChunks(fs[path], ChunkSize), r);
    }
  }

  /** Every CSV of a run has rows, and every row names a listed document by its sanitized ".txt" name. */
  lemma FolderOutputRows(folder: string, fs: map<string, string>, oracle: string -> Option<string>,
                         listing: seq<string>, out: CsvFile<Record>, r: Record)
    requires out in FolderOutputs(folder, fs, oracle, listing)
    ensures out.rows != []
    ensures r in out.rows ==> exists i :: 0 <= i < |listing| && r.fileName == Sanitize(listing[i])
    ensures r in out.rows ==> IsClean(r.fileName) && EndsWith(r.fileName, ".txt") && r.report != ""
    ensures r in out.rows ==> (r.author, r.year) == ExtractAuthorYear(r.fileName)
  {
    FlatMapMember(listing, EntryFn(folder, fs, oracle), out);
    var i :| 0 <= i < |listing| && out in EntryFn(folder, fs, oracle)(listing[i]);
    EntryOutputRows(folder, fs, oracle, listing[i], out, r);
  }

  /** CSVs are written in listing order. */
  lemma FolderOutputsConcat(folder: string, fs: map<string, string>, oracle: string -> Option<string>,
                            first: seq<string>, second: seq<string>)
    ensures FolderOutputs(folder, fs, oracle, first + second)
      == FolderOutputs(folder, fs, oracle, first) + FolderOutputs(folder, fs, oracle, second)
  {
    FlatMapConcat(first, second, EntryFn(folder, fs, oracle));
  }

  /**
   * Two listed names with the same sanitized name both read the one file at
   * that name: either nothing is written, or the same CSV, at the same
   * path, is written twice.
   */
  lemma SameSanitizedNameReadTwice(folder: string, fs: map<string, string>, oracle: string -> Option<string>,
                                   a: string, b: string)
    requires Sanitize(a) == Sanitize(b)
    ensures var outs := FolderOutputs(folder, fs, oracle, [a, b]);
      outs == [] || (|outs| == 2 && outs[0] == outs[1] && outs[0].path == Paths.Join(folder, OutputName(Sanitize(b))))
  {
    var f := EntryFn(folder, fs, oracle);
    var e := EntryOutputs(folder, fs, oracle, b);
    assert f(a) == e && f(b) == e by {
      EntryOutputsOfSanitized(folder, fs, oracle, a, b);
    }
    EntryOutputsAtMostOne(folder, fs, oracle, b);
    assert [a, b] == [a] + [b];
    FlatMapConcat([a], [b], f);
    FlatMapSingleton(a, f);
    FlatMapSingleton(b, f);
  }

  /** An entry's outputs depend on its name only through the sanitized name. */
  lemma EntryOutputsOfSanitized(folder: string, fs: map<string, string>, oracle: string -> Option<string>,
                                a: string, b: string)
    requires Sanitize(a) == Sanitize(b)
    ensures EntryOutputs(folder, fs, oracle, a) == EntryOutputs(folder, fs, oracle, b)
  {
  }

  /** An entry writes at most one CSV, named after its sanitized name. */
  lemma EntryOutputsAtMostOne(folder: string, fs: map<string, string>, oracle: string -> Option<string>,
                              filename: string)
    ensures var e := EntryOutputs(folder, fs, oracle, filename);
      e == [] || (|e| == 1 && e[0].path == Paths.Join(folder, OutputName(Sanitize(filename))))
  {
  }

  /** Without a folder, or when every API call fails, nothing is written. */
  lemma NothingWritten(env: Option<string>, listing: seq<string>, fs: map<string, string>,
                       oracle: string -> Option<string>)
    requires DocumentFolder(env).None? || forall chunk :: oracle(chunk).None?
    ensures RunOutputs(env, listing, fs, oracle) == []
  {
    if DocumentFolder(env).Some? {
      var folder := DocumentFolder(env).value;
      forall i | 0 <= i < |listing| ensures EntryFn(folder, fs, oracle)(listing[i]) == [] {
        var s := Sanitize(listing[i]);
        var path := Paths.Join(folder, s);
        EntryOutputsSpec(folder, fs, oracle, listing[i]);
        if path in fs {
          DocumentRecordsShape(fs[path], s, oracle);
        }
      }
      FlatMapEmpty(listing, EntryFn(folder, fs, oracle));
    }
  }

  /**
   * The output name replaces ".txt" with "_report_version.csv"; a name
   * made only of dots before ".txt" has no extension and keeps it.
   */
  lemma OutputNameOfTxt(filename: string)
    requires EndsWith(Sanitize(filename), ".txt")
    ensures var s := Sanitize(filename);
      && ((exists i :: 0 <= i < |s| - 4 && s[i] != '.') ==> OutputName(s) == s[..|s| - 4] + "_report_version.csv")
      && ((forall i :: 0 <= i < |s| - 4 ==> s[i] == '.') ==> OutputName(s) == s + "_report_version.csv")
  {
    var s := Sanitize(filename);
    SanitizedHasNoSeparator(filename);
    if exists i :: 0 <= i < |s| - 4 && s[i] != '.' {
      Paths.SplitextRootOfTxt(s);
    } else {
      Paths.SplitextRootOfDotsTxt(s);
    }
  }
}
