/** The entities of the document-upload form: field values, fields, libraries,
    files with their upload outcome, activity-log entries and the component state. */
module Types {

  datatype Option<+T> = None | Some(value: T)

  /** The values a metadata field can hold. The form controls produce strings,
      dates and booleans; the configured field list may start with `undefined`,
      `null` or a number. Numbers are whole here (see README, "Left out"). */
  datatype Value =
    | Undefined
    | Null
    | Bool(b: bool)
    | Num(n: int)
    | Str(s: string)
    | Date(time: int)

  /** JavaScript truthiness, the meaning of `!!v`: `undefined`, `null`, `false`,
      `0` and `""` are falsy, every other value (every object) is truthy. */
  predicate Truthy(v: Value) {
    match v
    case Undefined => false
    case Null => false
    case Bool(b) => b
    case Num(n) => n != 0
    case Str(s) => s != ""
    case Date(_) => true
  }

  /** A metadata field the user must fill in, keyed by its internal name. */
  datatype Field = Field(internalName: string, sortOrder: int, value: Value)

  /** A destination document library. */
  datatype Library = Library(title: string, serverRelativeUrl: string)

  /** The tri-state `success` flag of a file: `undefined` while its upload is
      in flight (or never started), then `true` or `false`. */
  datatype Outcome = Unsettled | Succeeded | Failed

  /** A dropped file; only the parts the form logic reads are kept. */
  datatype FileInfo = FileInfo(name: string, size: nat, success: Outcome)

  /** An activity-log entry, tagged by what it reports and naming its file. */
  datatype Activity =
    | Uploaded(file: string)
    | UpdatedMetadata(file: string)
    | AlreadyExists(file: string)

  /** The component's state record. */
  datatype State = State(
    filesToUpload: seq<FileInfo>,
    selectedLibrary: Option<Library>,
    fields: seq<Field>,
    uploading: bool,
    messages: seq<Activity>)
}
