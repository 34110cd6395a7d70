/**
 * What both batch drivers share: the CSV files they would write, and the
 * rule that an unset or empty DOCUMENT_FOLDER_PATH ends the run at once.
 */
module Outputs {
  import opened Optional

  /** A table handed to `DataFrame.to_csv`: the target path and its rows, in order. */
  datatype CsvFile<R> = CsvFile(path: string, rows: seq<R>)

  /** `os.getenv("DOCUMENT_FOLDER_PATH")` checked with `if not document_folder`. */
  function DocumentFolder(env: Option<string>): Option<string>
  {
    if env.Some? && env.value != "" then env else None
  }
}
