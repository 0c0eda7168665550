/**
 * The outside world the handlers read from, as data: the local file system,
 * the HTTP endpoints, and what the CSV reader and the workbook library make
 * of the bytes they are given.
 */
module World {
  import opened Wrappers

  type Rows = seq<seq<string>>

  /** time.Time, as the opaque text it is serialized to. */
  type Timestamp = string

  /** A workbook as the spreadsheet library sees it: sheet names in order, and each sheet's rows or a read failure. */
  datatype Workbook = Workbook(sheetNames: seq<string>, sheets: map<string, Option<Rows>>)

  /** f.GetSheetName(i): the i-th sheet's name, "" when there is none. */
  function SheetName(wb: Workbook, i: nat): string
  {
    if i < |wb.sheetNames| then wb.sheetNames[i] else ""
  }

  /** f.GetRows(name): fails for a sheet that does not exist or cannot be read. */
  function GetRows(wb: Workbook, name: string): Option<Rows>
  {
    if name in wb.sheets then wb.sheets[name] else None
  }

  /** What the bytes parse to: CSV records (None: malformed CSV) and a workbook (None: not a workbook). */
  datatype Content = Content(records: Option<Rows>, workbook: Option<Workbook>)

  /** A file that exists; `openable` is false when os.Open fails on it. */
  datatype FileEntry = FileEntry(openable: bool, content: Content)

  /** An HTTP response: status code and body. */
  datatype Response = Response(status: int, body: Content)

  /** Paths absent from `files` do not exist; URLs absent from `web` fail in transport. */
  datatype Env = Env(files: map<string, FileEntry>, web: map<string, Response>)

  /** Why a handler could not obtain its rows. */
  datatype LoadError =
    | FileMissing(path: string)
    | FileError(path: string)
    | TransportError(url: string)
    | StatusError(status: int)
    | CsvError
    | WorkbookError
    | RowsError(sheet: string)

  /** The error a load reports, from the outcome of reading its rows. */
  function ErrorOf(read: Result<Rows, LoadError>): Option<LoadError>
  {
    if read.Failure? then Some(read.error) else None
  }
}
