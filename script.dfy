/** The script's top level: pick the input, pick the output, settle a locked
    output, detect the delimiter, read the rows and write the worksheet. */
module Script {
  import opened Delimiter
  import opened OutputNames
  import opened LockedFile
  import opened CellPass

  /** How a run ends. Every outcome but `Saved` is an exit before the workbook is
      created; `InputUnreadable` is the uncaught exception of the second read. */
  datatype Outcome =
    | NoInputSelected
    | NoOutputSelected
    | LockExited
    | LockUnanswered
    | InputUnreadable
    | EmptyInput
    | Saved(path: string, cells: seq<CellWrite>, columns: seq<ColumnSetting>)

  /** Lines 106-107: the path the workbook goes to. A free output is used as it is;
      a locked one goes through `handle_locked_file`. */
  function Destination(style: PathStyle, output: string, answers: seq<Answer>,
                       saveDialog: (nat, string) -> string, locked: (nat, string) -> bool): Resolution
  {
    if locked(0, output) then Resolve(style, output, answers, 0, saveDialog, locked)
    else Resolved(output)
  }

  /** The path the workbook is written to was free at the last check made of it:
      either the output picked first, free at the first check, or the path a round
      of `handle_locked_file` settled on, free at that round's check. */
  lemma DestinationIsFree(style: PathStyle, output: string, answers: seq<Answer>, path: string,
                          saveDialog: (nat, string) -> string, locked: (nat, string) -> bool)
    requires Destination(style, output, answers, saveDialog, locked) == Resolved(path)
    ensures || (path == output && !locked(0, output))
            || exists d | 0 <= d < |answers| ::
                 DecidedAt(style, output, answers, d, saveDialog, locked) && !locked(d + 1, path)
  {
    if locked(0, output) {
      ResolvedPathIsFree(style, output, answers, path, saveDialog, locked);
    }
  }

  /** Lines 82-158. The dialogs, the lock checks, the file system and the CSV
      reader are parameters: `inputPath` is what the open dialog returned ("" when
      cancelled), `outputDialog(name)` what the first save dialog returned when it
      suggested `name`, `answers`, `saveDialog` and `locked` drive
      `handle_locked_file`, `read(p)` is the contents of file `p` or a failure, and
      `parse(text, d)` the rows `csv.reader` makes of `text` with delimiter `d`. */
  method Run(style: PathStyle, inputPath: string, outputDialog: string -> string,
             answers: seq<Answer>, saveDialog: (nat, string) -> string, locked: (nat, string) -> bool,
             read: string -> FileRead, parse: (string, char) -> Rows)
    returns (outcome: Outcome)
    ensures inputPath == [] <==> outcome == NoInputSelected
    ensures inputPath != [] ==>
      var output := outputDialog(SuggestedName(style, inputPath));
      && (output == [] <==> outcome == NoOutputSelected)
      && (output != [] ==>
            var dest := Destination(style, output, answers, saveDialog, locked);
            && (dest == Exited <==> outcome == LockExited)
            && (dest == Unanswered <==> outcome == LockUnanswered)
            && (dest.Resolved? ==>
                  var file := read(inputPath);
                  && (file.ReadError? <==> outcome == InputUnreadable)
                  && (file.Contents? ==>
                        var rows := parse(file.text, DetectDelimiter(file));
                        && (rows == [] <==> outcome == EmptyInput)
                        && (rows != [] ==>
                              && outcome.Saved?
                              && outcome.path == dest.path
                              && Worksheet(rows, outcome.cells, outcome.columns)))))
  {
    if inputPath == [] {
      return NoInputSelected;
    }
    var suggested := SuggestedName(style, inputPath);
    var output := outputDialog(suggested);
    if output == [] {
      return NoOutputSelected;
    }
    if locked(0, output) {
      var res, _ := HandleLockedFile(style, output, answers, saveDialog, locked);
      match res {
        case Resolved(path) =>
          output := path;
        case Exited =>
          return LockExited;
        case Unanswered =>
          return LockUnanswered;
      }
    }
    var delimiter := DetectDelimiter(read(inputPath));
    var file := read(inputPath);
    if file.ReadError? {
      return InputUnreadable;
    }
    var rows := parse(file.text, delimiter);
    if rows == [] {
      return EmptyInput;
    }
    var sheet := new Converter();
    sheet.WriteRows(rows);
    sheet.SizeColumns();
    assert sheet.columns == Settings(Ascending(MaxRowLength(rows)), sheet.colWidths);
    return Saved(output, sheet.writes, sheet.columns);
  }
}
