/**
 * The renderer component's list edits: adding, toggling, deleting and
 * renaming todos, and the drag-and-drop move, together with the small
 * editing and dragging state the component keeps between events. The
 * component's todo has its own four fields.
 */
module TodoApp {
  import opened Documents
  import Splice

  datatype Priority = Low | Medium | High

  datatype Todo = Todo(id: int, text: string, done: bool, priority: Priority)

  /** The characters String.prototype.trim removes: the ECMAScript
      WhiteSpace and LineTerminator code points. */
  predicate IsSpace(c: char)
  {
    || c == '\t' || c == '\n' || c == '\U{000B}' || c == '\U{000C}' || c == '\r' || c == ' '
    || c == '\U{00A0}' || c == '\U{1680}' || ('\U{2000}' <= c <= '\U{200A}')
    || c == '\U{2028}' || c == '\U{2029}' || c == '\U{202F}' || c == '\U{205F}'
    || c == '\U{3000}' || c == '\U{FEFF}'
  }

  predicate AllSpace(s: string)
  {
    forall i | 0 <= i < |s| :: IsSpace(s[i])
  }

  /** The string without its leading white space. */
  function TrimStart(s: string): (r: string)
    ensures |r| <= |s|
  {
    if s != [] && IsSpace(s[0]) then TrimStart(s[1..]) else s
  }

  /** The string without its trailing white space. */
  function TrimEnd(s: string): (r: string)
    ensures |r| <= |s|
  {
    if s != [] && IsSpace(s[|s| - 1]) then TrimEnd(s[..|s| - 1]) else s
  }

  /** TrimStart returns a suffix, what it drops is white space, and the
      result does not start with white space. */
  lemma {:induction false} TrimStartMeaning(s: string)
    ensures var r := TrimStart(s);
            && r == s[|s| - |r|..]
            && AllSpace(s[..|s| - |r|])
            && (r != [] ==> !IsSpace(r[0]))
  {
    if s != [] && IsSpace(s[0]) {
      TrimStartMeaning(s[1..]);
      var r := TrimStart(s[1..]);
      assert s[1..][|s[1..]| - |r|..] == s[|s| - |r|..];
      assert s[..|s| - |r|] == [s[0]] + s[1..][..|s[1..]| - |r|];
    } else {
      assert s[..0] == [];
    }
  }

  /** TrimEnd returns a prefix, what it drops is white space, and the
      result does not end with white space. */
  lemma {:induction false} TrimEndMeaning(s: string)
    ensures var r := TrimEnd(s);
            && r == s[..|r|]
            && AllSpace(s[|r|..])
            && (r != [] ==> !IsSpace(r[|r| - 1]))
  {
    if s != [] && IsSpace(s[|s| - 1]) {
      var s' := s[..|s| - 1];
      TrimEndMeaning(s');
      var r := TrimEnd(s');
      assert s'[..|r|] == s[..|r|];
      assert s[|r|..] == s'[|r|..] + [s[|s| - 1]];
    } else {
      assert s[|s|..] == [];
    }
  }

  /** String.prototype.trim: the string is empty exactly when the input was
      all white space, and otherwise starts and ends with a non-space. */
  function Trim(s: string): (r: string)
    ensures |r| <= |s|
    ensures r == [] <==> AllSpace(s)
    ensures r != [] ==> !IsSpace(r[0]) && !IsSpace(r[|r| - 1])
  {
    TrimBothEnds(s);
    TrimEnd(TrimStart(s))
  }

  lemma TrimBothEnds(s: string)
    ensures var r := TrimEnd(TrimStart(s));
            && (r == [] <==> AllSpace(s))
            && (r != [] ==> !IsSpace(r[0]) && !IsSpace(r[|r| - 1]))
  {
    var u := TrimStart(s);
    TrimStartMeaning(s);
    TrimEndMeaning(u);
    var r := TrimEnd(u);
    if r == [] {
      assert u[0..] == u;
      assert s[..|s|] == s;
    } else {
      assert r[0] == u[0] == s[|s| - |u|];
    }
  }

  /** Trimming is the identity on a trimmed string. */
  lemma TrimIdempotent(s: string)
    ensures Trim(Trim(s)) == Trim(s)
  {
    var t := Trim(s);
    if t != [] {
      assert TrimStart(t) == t;
      assert TrimEnd(t) == t;
    }
  }

  /** The trimmed string is the input with white space removed from both
      ends only: the slice after the leading white space, with only white
      space after it. */
  lemma TrimIsInnerSlice(s: string)
    ensures var i, r := |s| - |TrimStart(s)|, Trim(s);
            && i + |r| <= |s|
            && r == s[i..i + |r|]
            && AllSpace(s[..i])
            && AllSpace(s[i + |r|..])
  {
    var u := TrimStart(s);
    TrimStartMeaning(s);
    TrimEndMeaning(u);
    var r := TrimEnd(u);
    var i := |s| - |u|;
    SliceOfSuffix(s, i, |r|);
  }

  /** Slices of a suffix are slices of the whole string. */
  lemma SliceOfSuffix(s: string, i: nat, n: nat)
    requires i + n <= |s|
    ensures s[i..][..n] == s[i..i + n]
    ensures s[i..][n..] == s[i + n..]
  {
  }

  // ---- The list updaters passed to setTodos ----

  /** `toggleDone`: flip `done` on the todos carrying `id`. */
  function Toggled(ts: seq<Todo>, id: int): (r: seq<Todo>)
    ensures |r| == |ts|
    ensures forall k | 0 <= k < |ts| ::
              && r[k].(done := ts[k].done) == ts[k]
              && (r[k].done != ts[k].done <==> ts[k].id == id)
  {
    seq(|ts|, i requires 0 <= i < |ts| => if ts[i].id == id then ts[i].(done := !ts[i].done) else ts[i])
  }

  /** `deleteTask`: drop every todo carrying `id`. */
  function Deleted(ts: seq<Todo>, id: int): (r: seq<Todo>)
    ensures |r| <= |ts|
    ensures forall k | 0 <= k < |r| :: r[k].id != id
  {
    if ts == [] then []
    else (if ts[0].id == id then [] else [ts[0]]) + Deleted(ts[1..], id)
  }

  /** The `finishEdit` updater: replace `text` on the todos carrying `id`. */
  function Renamed(ts: seq<Todo>, id: int, text: string): (r: seq<Todo>)
    ensures |r| == |ts|
    ensures forall k | 0 <= k < |ts| ::
              && r[k].(text := ts[k].text) == ts[k]
              && r[k].text == (if ts[k].id == id then text else ts[k].text)
  {
    seq(|ts|, i requires 0 <= i < |ts| => if ts[i].id == id then ts[i].(text := text) else ts[i])
  }

  predicate HasId(ts: seq<Todo>, id: int)
  {
    exists k | 0 <= k < |ts| :: ts[k].id == id
  }

  /** Toggling the same id twice restores the list. */
  lemma ToggleTwiceRestores(ts: seq<Todo>, id: int)
    ensures Toggled(Toggled(ts, id), id) == ts
  {
    assert forall k | 0 <= k < |ts| :: Toggled(Toggled(ts, id), id)[k] == ts[k];
  }

  /** Toggling an id that no todo carries changes nothing. */
  lemma ToggleAbsentIsIdentity(ts: seq<Todo>, id: int)
    requires !HasId(ts, id)
    ensures Toggled(ts, id) == ts
  {
    assert forall k | 0 <= k < |ts| :: Toggled(ts, id)[k] == ts[k];
  }

  /** Toggles of two ids commute. */
  lemma TogglesCommute(ts: seq<Todo>, a: int, b: int)
    ensures Toggled(Toggled(ts, a), b) == Toggled(Toggled(ts, b), a)
  {
  }

  /** A todo survives the delete exactly when it was there and has another id. */
  lemma {:induction false} DeletedMembership(ts: seq<Todo>, id: int, t: Todo)
    ensures t in Deleted(ts, id) <==> t in ts && t.id != id
  {
    if ts != [] {
      DeletedMembership(ts[1..], id, t);
      assert ts == [ts[0]] + ts[1..];
    }
  }

  /** The delete keeps the remaining todos in their order: it acts on each
      part of a list separately. */
  lemma {:induction false} DeletedConcat(a: seq<Todo>, b: seq<Todo>, id: int)
    ensures Deleted(a + b, id) == Deleted(a, id) + Deleted(b, id)
  {
    if a == [] {
      assert a + b == b;
    } else {
      assert (a + b)[0] == a[0];
      assert (a + b)[1..] == a[1..] + b;
      DeletedConcat(a[1..], b, id);
    }
  }

  /** Deleting an id that no todo carries changes nothing. */
  lemma {:induction false} DeleteAbsentIsIdentity(ts: seq<Todo>, id: int)
    requires !HasId(ts, id)
    ensures Deleted(ts, id) == ts
  {
    if ts != [] {
      assert !HasId(ts[1..], id) by {
        forall k | 0 <= k < |ts[1..]| ensures ts[1..][k].id != id {
          assert ts[1..][k] == ts[k + 1];
        }
      }
      DeleteAbsentIsIdentity(ts[1..], id);
    }
  }

  /** Deleting twice is deleting once. */
  lemma DeleteIdempotent(ts: seq<Todo>, id: int)
    ensures Deleted(Deleted(ts, id), id) == Deleted(ts, id)
  {
    DeleteAbsentIsIdentity(Deleted(ts, id), id);
  }

  /** Deleting a todo just added, under a fresh id, undoes the add. */
  lemma AddThenDeleteRestores(ts: seq<Todo>, t: Todo)
    requires !HasId(ts, t.id)
    ensures Deleted(ts + [t], t.id) == ts
  {
    DeletedConcat(ts, [t], t.id);
    DeleteAbsentIsIdentity(ts, t.id);
    assert [t][1..] == [];
  }

  /** Toggling a todo and then deleting it is the same as deleting it. */
  lemma {:induction false} DeleteAfterToggle(ts: seq<Todo>, id: int)
    ensures Deleted(Toggled(ts, id), id) == Deleted(ts, id)
  {
    if ts != [] {
      assert Toggled(ts, id)[1..] == Toggled(ts[1..], id);
      DeleteAfterToggle(ts[1..], id);
    }
  }

  /** The last rename wins. */
  lemma RenameTwice(ts: seq<Todo>, id: int, first: string, second: string)
    ensures Renamed(Renamed(ts, id, first), id, second) == Renamed(ts, id, second)
  {
  }

  /** Renaming and toggling touch different fields and commute. */
  lemma RenameCommutesWithToggle(ts: seq<Todo>, a: int, b: int, text: string)
    ensures Renamed(Toggled(ts, a), b, text) == Toggled(Renamed(ts, b, text), a)
  {
  }

  /** The component's own state: the list (as set through `setTodos`), the
      new-task inputs, the index being dragged and the todo being edited. */
  class Editor {
    var todos: seq<Todo>
    var newTask: string
    var newPriority: Priority
    var draggedIndex: Option<int>
    var editingId: Option<int>
    var editText: string

    /** The initial `useState` values, over the list the hook supplies. */
    constructor (initial: seq<Todo>)
      ensures todos == initial && newTask == "" && newPriority == Medium
      ensures draggedIndex == None && editingId == None && editText == ""
    {
      todos := initial;
      newTask := "";
      newPriority := Medium;
      draggedIndex := None;
      editingId := None;
      editText := "";
    }

    /** `addTask`: a blank input changes nothing; otherwise one todo with the
        trimmed text, id `now`, not done and the chosen priority is appended
        and the input is cleared. */
    method AddTask(now: int)
      modifies this
      ensures Trim(old(newTask)) == [] ==> todos == old(todos) && newTask == old(newTask)
      ensures Trim(old(newTask)) != [] ==>
                todos == old(todos) + [Todo(now, Trim(old(newTask)), false, newPriority)] && newTask == ""
      ensures newPriority == old(newPriority) && draggedIndex == old(draggedIndex)
      ensures editingId == old(editingId) && editText == old(editText)
    {
      var text := Trim(newTask);
      if text == [] {
        return;
      }
      todos := todos + [Todo(now, text, false, newPriority)];
      newTask := "";
    }

    method ToggleDone(id: int)
      modifies this
      ensures todos == Toggled(old(todos), id)
      ensures newTask == old(newTask) && newPriority == old(newPriority) && draggedIndex == old(draggedIndex)
      ensures editingId == old(editingId) && editText == old(editText)
    {
      todos := Toggled(todos, id);
    }

    method DeleteTask(id: int)
      modifies this
      ensures todos == Deleted(old(todos), id)
      ensures newTask == old(newTask) && newPriority == old(newPriority) && draggedIndex == old(draggedIndex)
      ensures editingId == old(editingId) && editText == old(editText)
    {
      todos := Deleted(todos, id);
    }

    /** `startEdit`: remember which todo is edited and seed the text field. */
    method StartEdit(todo: Todo)
      modifies this
      ensures editingId == Some(todo.id) && editText == todo.text
      ensures todos == old(todos) && newTask == old(newTask) && newPriority == old(newPriority)
      ensures draggedIndex == old(draggedIndex)
    {
      editingId := Some(todo.id);
      editText := todo.text;
    }

    /** `finishEdit`: nothing without an edit in progress; otherwise a
        non-blank trimmed text renames the edited todo, a blank one leaves
        the list alone, and the edit state is cleared either way. */
    method FinishEdit()
      modifies this
      ensures old(editingId).None? ==> todos == old(todos) && editingId == None && editText == old(editText)
      ensures old(editingId).Some? ==> editingId == None && editText == ""
      ensures old(editingId).Some? && Trim(old(editText)) != [] ==>
                todos == Renamed(old(todos), old(editingId).value, Trim(old(editText)))
      ensures old(editingId).Some? && Trim(old(editText)) == [] ==> todos == old(todos)
      ensures newTask == old(newTask) && newPriority == old(newPriority) && draggedIndex == old(draggedIndex)
    {
      if editingId.None? {
        return;
      }
      var text := Trim(editText);
      if text != [] {
        todos := Renamed(todos, editingId.value, text);
      }
      editingId := None;
      editText := "";
    }

    /** `handleDragStart`: remember the dragged index. */
    method DragStart(index: int)
      modifies this
      ensures draggedIndex == Some(index)
      ensures todos == old(todos) && newTask == old(newTask) && newPriority == old(newPriority)
      ensures editingId == old(editingId) && editText == old(editText)
    {
      draggedIndex := Some(index);
    }

    /** `handleDrop`: nothing (and the drag is not reset) without a drag or
        when dropped on its own index; otherwise the dragged todo is moved to
        the drop index and the drag is reset. The dragged index must still
        name a todo, as it does when the list did not shrink during the drag. */
    method HandleDrop(index: int)
      requires draggedIndex.Some? ==> 0 < |todos| && draggedIndex.value < |todos|
      modifies this
      ensures old(draggedIndex).None? || old(draggedIndex) == Some(index) ==>
                todos == old(todos) && draggedIndex == old(draggedIndex)
      ensures old(draggedIndex).Some? && old(draggedIndex) != Some(index) ==>
                && draggedIndex == None
                && todos == Splice.Moved(old(todos),
                                         Splice.ResolveIndex(old(draggedIndex).value, |old(todos)|),
                                         Splice.ResolveIndex(index, |old(todos)| - 1))
                && |todos| == |old(todos)|
                && multiset(todos) == multiset(old(todos))
      ensures newTask == old(newTask) && newPriority == old(newPriority)
      ensures editingId == old(editingId) && editText == old(editText)
    {
      if draggedIndex.None? || draggedIndex.value == index {
        return;
      }
      var from := Splice.ResolveIndex(draggedIndex.value, |todos|);
      var to := Splice.ResolveIndex(index, |todos| - 1);
      Splice.MovedIsPermutation(todos, from, to);
      todos := Splice.Move(todos, draggedIndex.value, index);
      draggedIndex := None;
    }
  }
}
