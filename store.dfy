/**
 * The main-process IPC handlers `getTodos` and `saveTodos`: how the file
 * contents are shaped into the document handed to the renderer, and what is
 * written back. The file system is not modelled; the outcome of creating the
 * data directory, reading and parsing the file is the `ReadResult` passed in,
 * and whether creating the directory or writing throws is a flag.
 */
module MainStore {
  import opened Documents

  /** What the read path produced: the file was absent, something threw
      (directory creation, read, or JSON.parse), or it parsed to an array
      (the legacy format) or to an object. */
  datatype ReadResult =
    | FileMissing
    | ReadFailed
    | ParsedArray(items: seq<RawTodo>)
    | ParsedObject(doc: Document)

  /** The document returned when there is nothing usable on disk. */
  function EmptyDocument(): (d: Document)
    ensures d.todos == Some([]) && d.sections == Some(DefaultRawSections())
  {
    Document(Some([]), Some(DefaultRawSections()))
  }

  /** The `getTodos` handler. It never fails: every outcome of the read path
      becomes a document. Only a parsed object passes through, verbatim; a
      legacy array becomes its todos with the two default sections; anything
      else is the empty document with the default sections. */
  function GetTodos(r: ReadResult): (d: Document)
    ensures r.ParsedObject? ==> d == r.doc
    ensures !r.ParsedObject? ==> d.sections == Some(DefaultRawSections())
    ensures r.ParsedArray? ==> d.todos == Some(r.items)
    ensures (r.FileMissing? || r.ReadFailed?) ==> d.todos == Some([])
  {
    match r
    case ParsedArray(items) => Document(Some(items), Some(DefaultRawSections()))
    case ParsedObject(doc) => doc
    case FileMissing => EmptyDocument()
    case ReadFailed => EmptyDocument()
  }

  /** What the renderer may send to `saveTodos`: the legacy bare array or a document object. */
  datatype SaveInput = SaveArray(items: seq<RawTodo>) | SaveObject(doc: Document)

  /** `written` is the document that ends up in the file (None when the
      handler threw before or during the write). */
  datatype SaveResult = SaveResult(written: Option<Document>, success: bool)

  /** The `saveTodos` handler. `ioFails` says whether creating the directory
      or writing the file throws. */
  function SaveTodos(data: SaveInput, ioFails: bool): (s: SaveResult)
    ensures s.success <==> !ioFails
    ensures s.success <==> s.written.Some?
    ensures s.success && data.SaveObject? ==> s.written == Some(data.doc)
    ensures s.success && data.SaveArray? ==> s.written == Some(Document(Some(data.items), Some([])))
  {
    if ioFails then SaveResult(None, false)
    else
      match data
      case SaveArray(items) => SaveResult(Some(Document(Some(items), Some([]))), true)
      case SaveObject(doc) => SaveResult(Some(doc), true)
  }

  /** Saving a document and loading the file again gives back that document. */
  lemma SaveThenLoad(doc: Document)
    ensures SaveTodos(SaveObject(doc), false).written.Some?
    ensures GetTodos(ParsedObject(SaveTodos(SaveObject(doc), false).written.value)) == doc
  {
  }

  /** Saving whatever was just loaded and loading again reproduces it:
      after the first load, the file is a fixed point of load-then-save. */
  lemma LoadSaveLoadIsStable(r: ReadResult)
    ensures var d := GetTodos(r);
            var s := SaveTodos(SaveObject(d), false);
            s.success && GetTodos(ParsedObject(s.written.value)) == d
  {
  }

  /** The two handlers treat the legacy array differently: loading it adds
      the default sections, while saving it stores an empty section list,
      which the next load returns as it is. */
  lemma LegacyArraySaveLosesDefaultSections(items: seq<RawTodo>)
    ensures GetTodos(ParsedArray(items)).sections == Some(DefaultRawSections())
    ensures var s := SaveTodos(SaveArray(items), false);
            s.success && GetTodos(ParsedObject(s.written.value)).sections == Some([])
  {
  }
}
