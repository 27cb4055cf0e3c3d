/**
 * The shapes of the persisted to-do document as they cross the boundary
 * between the main process (which reads and writes the JSON file) and the
 * renderer (which normalises what it receives).
 *
 * JSON text is not modelled: a document is the value JSON.parse would give.
 * A field the file may lack, or hold with a type the code does not accept,
 * is an Option; None stands for "absent" (or, for `expanded`, "not a boolean").
 */
module Documents {

  datatype Option<+T> = None | Some(value: T)

  /** A todo as stored: `id`, `text`, `done` and `priority` are always
      written by the renderer; the three later fields may be missing in
      older files. */
  datatype RawTodo = RawTodo(
    id: int,
    text: string,
    description: Option<string>,
    done: bool,
    priority: string,
    section: Option<string>,
    createdAt: Option<int>)

  /** A section as stored; `expanded` is None when it is missing or not a boolean. */
  datatype RawSection = RawSection(id: string, name: string, expanded: Option<bool>)

  /** The parsed object form `{todos, sections}`. A field that is missing
      (or, for `sections`, not an array) is None. */
  datatype Document = Document(todos: Option<seq<RawTodo>>, sections: Option<seq<RawSection>>)

  /** The two sections main.ts writes inline whenever it has none to return. */
  function DefaultRawSections(): (d: seq<RawSection>)
    ensures |d| == 2
    ensures d[0].id == "today" && d[0].name == "Today"
    ensures d[1].id == "later" && d[1].name == "Later"
    ensures forall i | 0 <= i < |d| :: d[i].expanded == Some(true)
  {
    [RawSection("today", "Today", Some(true)), RawSection("later", "Later", Some(true))]
  }
}
