/**
 * The renderer's todo/section store (the `useTodos` hook): normalising the
 * document received at load time, the sorted view, and the section edits.
 * `Date.now()` and `nanoid()` are parameters (`now`, `newId`).
 */
module TodoHook {
  import opened Documents
  import Splice
  import MainStore

  /** A todo after load-time normalisation. `section` stays optional: the
      object-format branch does not default it, and an absent section is
      never equal to a section id. */
  datatype Todo = Todo(
    id: int,
    text: string,
    description: string,
    done: bool,
    priority: string,
    section: Option<string>,
    createdAt: int)

  datatype Section = Section(id: string, name: string, expanded: bool)

  datatype SortMethod = NoSort | ByPriority | ByCreatedAt

  /** The id todos fall back to: the first default section. */
  const TodaySection := "today"

  function DefaultSections(): seq<Section>
  {
    [Section(TodaySection, "Today", true), Section("later", "Later", true)]
  }

  // ---------------------------------------------------------------------
  // Priority

  /** `getPriorityValue`: high 3, medium 2, low 1, anything else 0. */
  function PriorityValue(p: string): (v: int)
    ensures 0 <= v <= 3
    ensures v == 3 <==> p == "high"
    ensures v == 2 <==> p == "medium"
    ensures v == 1 <==> p == "low"
  {
    match p
    case "high" => 3
    case "medium" => 2
    case "low" => 1
    case _ => 0
  }

  // ---------------------------------------------------------------------
  // Load-time normalisation

  /** What the `getTodos()` promise delivers to the renderer: a rejection,
      the legacy bare array, a document object, or a payload the `.then`
      handler throws on (a null payload, a truthy `todos` that is not an
      array, or a null entry in `todos` or `sections`), which sends it to
      `.catch`. */
  datatype Response = Rejected | LegacyArray(items: seq<RawTodo>) | Object(doc: Document) | Malformed

  datatype State = State(todos: seq<Todo>, sections: seq<Section>)

  /** `Date.now()` as read inside the `.map`: `clock(i)` is the reading taken
      for the todo at index `i`. The source reads the clock only for a todo
      whose `createdAt` is falsy, at most once per todo, so every sequence
      of readings is some `clock`. */
  type Clock = nat -> int

  /** JavaScript's `x || d` on an optional string: the empty string and an
      absent field are both falsy. */
  function OrString(x: Option<string>, d: string): (r: string)
    ensures (x.None? || x.value == "") ==> r == d
    ensures (x.Some? && x.value != "") ==> r == x.value
  {
    if x.Some? && x.value != "" then x.value else d
  }

  /** `x || d` on an optional number: 0 and an absent field are falsy. */
  function OrInt(x: Option<int>, d: int): (r: int)
    ensures (x.None? || x.value == 0) ==> r == d
    ensures (x.Some? && x.value != 0) ==> r == x.value
  {
    if x.Some? && x.value != 0 then x.value else d
  }

  /** The legacy branch: the spread keeps every field; section, description
      and createdAt are defaulted when falsy. */
  function LegacyTodo(t: RawTodo, now: int): (r: Todo)
    ensures r.id == t.id && r.text == t.text && r.done == t.done && r.priority == t.priority
    ensures r.section == Some(OrString(t.section, TodaySection))
    ensures r.description == OrString(t.description, "")
    ensures r.createdAt == OrInt(t.createdAt, now)
  {
    Todo(t.id, t.text, OrString(t.description, ""), t.done, t.priority,
         Some(OrString(t.section, TodaySection)), OrInt(t.createdAt, now))
  }

  /** The object branch: description and createdAt defaulted, section kept as it is. */
  function ObjectTodo(t: RawTodo, now: int): (r: Todo)
    ensures r.id == t.id && r.text == t.text && r.done == t.done && r.priority == t.priority
    ensures r.section == t.section
    ensures r.description == OrString(t.description, "")
    ensures r.createdAt == OrInt(t.createdAt, now)
  {
    Todo(t.id, t.text, OrString(t.description, ""), t.done, t.priority,
         t.section, OrInt(t.createdAt, now))
  }

  /** A stored section keeps `expanded` only when it is a boolean. */
  function LoadedSection(s: RawSection): (r: Section)
    ensures r.id == s.id && r.name == s.name
    ensures s.expanded.Some? ==> r.expanded == s.expanded.value
    ensures s.expanded.None? ==> r.expanded
  {
    Section(s.id, s.name, if s.expanded.Some? then s.expanded.value else true)
  }

  function MapLegacy(ts: seq<RawTodo>, clock: Clock): (r: seq<Todo>)
    ensures |r| == |ts|
    ensures forall i | 0 <= i < |ts| :: r[i] == LegacyTodo(ts[i], clock(i))
  {
    seq(|ts|, i requires 0 <= i < |ts| => LegacyTodo(ts[i], clock(i)))
  }

  function MapObject(ts: seq<RawTodo>, clock: Clock): (r: seq<Todo>)
    ensures |r| == |ts|
    ensures forall i | 0 <= i < |ts| :: r[i] == ObjectTodo(ts[i], clock(i))
  {
    seq(|ts|, i requires 0 <= i < |ts| => ObjectTodo(ts[i], clock(i)))
  }

  function MapSections(ss: seq<RawSection>): (r: seq<Section>)
    ensures |r| == |ss|
    ensures forall i | 0 <= i < |ss| :: r[i] == LoadedSection(ss[i])
  {
    seq(|ss|, i requires 0 <= i < |ss| => LoadedSection(ss[i]))
  }

  /** The `.then`/`.catch` handlers of the load effect, as the state they
      set. A throw inside `.then` ends in `.catch`, whose state wins. */
  function Load(resp: Response, clock: Clock): (st: State)
    // a rejected promise or a throwing handler: empty list, default sections
    ensures resp.Rejected? || resp.Malformed? ==> st == State([], DefaultSections())
    // legacy array: one todo per item, every falsy field defaulted, default sections
    ensures resp.LegacyArray? ==>
      && |st.todos| == |resp.items|
      && st.sections == DefaultSections()
      && forall i | 0 <= i < |st.todos| ::
           var t, raw := st.todos[i], resp.items[i];
           && t.id == raw.id && t.text == raw.text && t.done == raw.done && t.priority == raw.priority
           && t.section == Some(OrString(raw.section, TodaySection))
           && t.description == OrString(raw.description, "")
           && t.createdAt == OrInt(raw.createdAt, clock(i))
    // object: missing todos are [], section is NOT defaulted
    ensures resp.Object? ==>
      var raws := if resp.doc.todos.Some? then resp.doc.todos.value else [];
      && |st.todos| == |raws|
      && forall i | 0 <= i < |st.todos| ::
           var t, raw := st.todos[i], raws[i];
           && t.id == raw.id && t.text == raw.text && t.done == raw.done && t.priority == raw.priority
           && t.section == raw.section
           && t.description == OrString(raw.description, "")
           && t.createdAt == OrInt(raw.createdAt, clock(i))
    // object: sections kept (with expanded defaulted) when they are an array
    ensures resp.Object? && resp.doc.sections.None? ==> st.sections == DefaultSections()
    ensures resp.Object? && resp.doc.sections.Some? ==>
      && |st.sections| == |resp.doc.sections.value|
      && forall i | 0 <= i < |st.sections| ::
           var s, raw := st.sections[i], resp.doc.sections.value[i];
           s.id == raw.id && s.name == raw.name &&
           s.expanded == (if raw.expanded.Some? then raw.expanded.value else true)
  {
    match resp
    case Rejected => State([], DefaultSections())
    case Malformed => State([], DefaultSections())
    case LegacyArray(items) => State(MapLegacy(items, clock), DefaultSections())
    case Object(doc) =>
      var todos := MapObject(if doc.todos.Some? then doc.todos.value else [], clock);
      var sections := if doc.sections.Some? then MapSections(doc.sections.value) else DefaultSections();
      State(todos, sections)
  }

  /** A payload with neither `todos` nor `sections` (such as a number or a
      string, which take the object branch) ends in the same state as one
      that sends the handler to `.catch`. */
  lemma AbsentFieldsLoadLikeCatch(clock: Clock)
    ensures Load(Object(Document(None, None)), clock) == Load(Malformed, clock)
  {
  }

  /** After a load with a real clock (no reading is 0), every todo has a
      nonzero creation time. */
  lemma LoadFillsCreatedAt(resp: Response, clock: Clock)
    requires forall i: nat :: clock(i) != 0
    ensures forall i | 0 <= i < |Load(resp, clock).todos| :: Load(resp, clock).todos[i].createdAt != 0
  {
  }

  /** The stored form of a todo, as the save effect sends it: every field
      present, none changed. */
  function StoredTodo(t: Todo): (r: RawTodo)
    ensures r.id == t.id && r.text == t.text && r.done == t.done && r.priority == t.priority
    ensures r.description == Some(t.description) && r.section == t.section
    ensures r.createdAt == Some(t.createdAt)
  {
    RawTodo(t.id, t.text, Some(t.description), t.done, t.priority, t.section, Some(t.createdAt))
  }

  /** The stored form of a section: `expanded` is always a boolean. */
  function StoredSection(s: Section): (r: RawSection)
    ensures r.id == s.id && r.name == s.name && r.expanded == Some(s.expanded)
  {
    RawSection(s.id, s.name, Some(s.expanded))
  }

  /** Loading a stored todo gives it back when its creation time is nonzero,
      whatever the clock reads; with a zero creation time the clock's
      reading replaces it. */
  lemma ReloadTodo(t: Todo, now: int)
    ensures t.createdAt != 0 ==> ObjectTodo(StoredTodo(t), now) == t
    ensures t.createdAt == 0 ==> ObjectTodo(StoredTodo(t), now) == t.(createdAt := now)
  {
  }

  /** Loading a stored section gives it back. */
  lemma ReloadSection(s: Section)
    ensures LoadedSection(StoredSection(s)) == s
  {
  }

  /** `{todos, sections}` as the save effect sends it. */
  function Stored(st: State): (d: Document)
    ensures d.todos.Some? && |d.todos.value| == |st.todos|
    ensures forall i | 0 <= i < |st.todos| :: d.todos.value[i] == StoredTodo(st.todos[i])
    ensures d.sections.Some? && |d.sections.value| == |st.sections|
    ensures forall i | 0 <= i < |st.sections| :: d.sections.value[i] == StoredSection(st.sections[i])
  {
    Document(Some(seq(|st.todos|, i requires 0 <= i < |st.todos| => StoredTodo(st.todos[i]))),
             Some(seq(|st.sections|, i requires 0 <= i < |st.sections| => StoredSection(st.sections[i]))))
  }

  /** The default sections the main process writes are the renderer's defaults. */
  lemma DefaultSectionsAgree()
    ensures MapSections(DefaultRawSections()) == DefaultSections()
  {
  }

  /** Saving the hook's state through the main process and loading the file
      in the next session gives back exactly that state, as long as every
      todo carries a creation time (which a load with a real clock ensures). */
  lemma {:induction false} ReloadIsStable(st: State, clock: Clock)
    requires forall i | 0 <= i < |st.todos| :: st.todos[i].createdAt != 0
    ensures var s := MainStore.SaveTodos(MainStore.SaveObject(Stored(st)), false);
            && s.written.Some?
            && Load(Object(MainStore.GetTodos(MainStore.ParsedObject(s.written.value))), clock) == st
  {
    var d := Stored(st);
    MainStore.SaveThenLoad(d);
    var st' := Load(Object(d), clock);
    assert |st'.todos| == |st.todos|;
    forall i | 0 <= i < |st.todos|
      ensures st'.todos[i] == st.todos[i]
    {
      assert d.todos.value[i] == StoredTodo(st.todos[i]);
      ReloadTodo(st.todos[i], clock(i));
    }
    forall i | 0 <= i < |st.sections|
      ensures st'.sections[i] == st.sections[i]
    {
      assert d.sections.value[i] == StoredSection(st.sections[i]);
      ReloadSection(st.sections[i]);
    }
  }

  /** A legacy file read through the main process reaches the renderer as a
      document object, so its todos keep a missing `section` (the renderer's
      legacy branch, which would assign 'today', is not taken); only
      description and createdAt are filled in. */
  lemma LegacyFileKeepsMissingSections(items: seq<RawTodo>, clock: Clock)
    ensures var st := Load(Object(MainStore.GetTodos(MainStore.ParsedArray(items))), clock);
            && |st.todos| == |items|
            && st.sections == DefaultSections()
            && forall i | 0 <= i < |items| :: st.todos[i].section == items[i].section
  {
    DefaultSectionsAgree();
  }

  // ---------------------------------------------------------------------
  // Sorted view

  /** The comparator passed to `sort`: completed todos go last; otherwise
      higher priority value, or larger creation time, goes first. */
  function Compare(m: SortMethod, a: Todo, b: Todo): int
  {
    if a.done != b.done then (if a.done then 1 else -1)
    else match m
      case ByPriority => PriorityValue(b.priority) - PriorityValue(a.priority)
      case ByCreatedAt => b.createdAt - a.createdAt
      case NoSort => 0
  }

  /** What the comparator's sign means: a negative result sorts `a` first. */
  lemma CompareMeaning(m: SortMethod, a: Todo, b: Todo)
    ensures a.done != b.done ==> (Compare(m, a, b) < 0 <==> !a.done) && Compare(m, a, b) != 0
    ensures a.done == b.done && m == ByPriority ==>
              (Compare(m, a, b) < 0 <==> PriorityValue(a.priority) > PriorityValue(b.priority)) &&
              (Compare(m, a, b) == 0 <==> PriorityValue(a.priority) == PriorityValue(b.priority))
    ensures a.done == b.done && m == ByCreatedAt ==>
              (Compare(m, a, b) < 0 <==> a.createdAt > b.createdAt) && (Compare(m, a, b) == 0 <==> a.createdAt == b.createdAt)
    ensures a.done == b.done && m == NoSort ==> Compare(m, a, b) == 0
  {
  }

  /** The comparator is a total preorder: antisymmetric in sign and transitive. */
  lemma CompareIsPreorder(m: SortMethod, a: Todo, b: Todo, c: Todo)
    ensures Compare(m, a, b) > 0 <==> Compare(m, b, a) < 0
    ensures Compare(m, a, b) <= 0 && Compare(m, b, c) <= 0 ==> Compare(m, a, c) <= 0
    ensures Compare(m, a, b) == 0 && Compare(m, b, c) == 0 ==> Compare(m, a, c) == 0
  {
  }

  ghost predicate Sorted(m: SortMethod, r: seq<Todo>)
  {
    forall i, j | 0 <= i < j < |r| :: Compare(m, r[i], r[j]) <= 0
  }

  /** The todos of `s` that compare equal to `p`, in their order in `s`. */
  function Peers(m: SortMethod, s: seq<Todo>, p: Todo): seq<Todo>
  {
    if s == [] then []
    else Peers(m, s[..|s| - 1], p) + (if Compare(m, s[|s| - 1], p) == 0 then [s[|s| - 1]] else [])
  }

  /** Stability: for every key, the todos with that key appear in the
      result in the same order as in the input. */
  ghost predicate Stable(m: SortMethod, s: seq<Todo>, r: seq<Todo>)
  {
    forall p :: Peers(m, r, p) == Peers(m, s, p)
  }

  /** Insertion of `x` after every element that does not compare greater. */
  function Insert(m: SortMethod, t: seq<Todo>, x: Todo): seq<Todo>
  {
    if t == [] then [x]
    else if Compare(m, t[|t| - 1], x) > 0 then Insert(m, t[..|t| - 1], x) + [t[|t| - 1]]
    else t + [x]
  }

  /** The stable sort of `s` under the comparator (reference definition). */
  function SortBy(m: SortMethod, s: seq<Todo>): seq<Todo>
  {
    if s == [] then [] else Insert(m, SortBy(m, s[..|s| - 1]), s[|s| - 1])
  }

  lemma {:induction false} InsertMultiset(m: SortMethod, t: seq<Todo>, x: Todo)
    ensures multiset(Insert(m, t, x)) == multiset(t) + multiset{x}
  {
    if t != [] && Compare(m, t[|t| - 1], x) > 0 {
      InsertMultiset(m, t[..|t| - 1], x);
      assert t == t[..|t| - 1] + [t[|t| - 1]];
    }
  }

  lemma {:induction false} InsertSorted(m: SortMethod, t: seq<Todo>, x: Todo)
    requires Sorted(m, t)
    ensures Sorted(m, Insert(m, t, x))
  {
    if t == [] {
    } else if Compare(m, t[|t| - 1], x) > 0 {
      var t', last := t[..|t| - 1], t[|t| - 1];
      assert Sorted(m, t');
      InsertSorted(m, t', x);
      var u := Insert(m, t', x);
      forall k | 0 <= k < |u| ensures Compare(m, u[k], last) <= 0 {
        InsertElement(m, t', x, k);
        if u[k] == x {
          CompareIsPreorder(m, last, x, x);
        } else {
          var i :| 0 <= i < |t'| && t'[i] == u[k];
          assert t[i] == u[k];
        }
      }
      SortedSnoc(m, u, last);
    } else {
      var last := t[|t| - 1];
      forall k | 0 <= k < |t| ensures Compare(m, t[k], x) <= 0 {
        if k < |t| - 1 {
          CompareIsPreorder(m, t[k], last, x);
        }
      }
      SortedSnoc(m, t, x);
    }
  }

  /** Every element of an insert is the inserted one or one of the list's. */
  lemma InsertElement(m: SortMethod, t: seq<Todo>, x: Todo, k: nat)
    requires k < |Insert(m, t, x)|
    ensures Insert(m, t, x)[k] == x || Insert(m, t, x)[k] in t
  {
    InsertMultiset(m, t, x);
    assert Insert(m, t, x)[k] in multiset(Insert(m, t, x));
  }

  /** Appending an element no smaller than every element keeps a list sorted. */
  lemma SortedSnoc(m: SortMethod, u: seq<Todo>, y: Todo)
    requires Sorted(m, u)
    requires forall k | 0 <= k < |u| :: Compare(m, u[k], y) <= 0
    ensures Sorted(m, u + [y])
  {
    var r := u + [y];
    forall i, j | 0 <= i < j < |r| ensures Compare(m, r[i], r[j]) <= 0 {
      if j < |u| {
        assert r[i] == u[i] && r[j] == u[j];
      } else {
        assert r[i] == u[i];
      }
    }
  }

  /** An element that compares greater than `x` is never a peer of `x`'s peers. */
  lemma NotBothPeers(m: SortMethod, last: Todo, x: Todo, p: Todo)
    requires Compare(m, last, x) > 0
    ensures !(Compare(m, x, p) == 0 && Compare(m, last, p) == 0)
  {
  }

  /** The peers of a list with one more element at the end. */
  lemma PeersSnoc(m: SortMethod, u: seq<Todo>, y: Todo, p: Todo)
    ensures Peers(m, u + [y], p) == Peers(m, u, p) + (if Compare(m, y, p) == 0 then [y] else [])
  {
    assert (u + [y])[..|u + [y]| - 1] == u;
  }

  lemma {:induction false} InsertPeers(m: SortMethod, t: seq<Todo>, x: Todo, p: Todo)
    ensures Peers(m, Insert(m, t, x), p) == Peers(m, t, p) + (if Compare(m, x, p) == 0 then [x] else [])
  {
    if t == [] {
      PeersSnoc(m, [], x, p);
      assert [] + [x] == [x];
    } else if Compare(m, t[|t| - 1], x) > 0 {
      var t', last := t[..|t| - 1], t[|t| - 1];
      InsertPeers(m, t', x, p);
      InsertPeersPastGreater(m, t', last, x, p);
      assert t' + [last] == t;
    } else {
      assert Insert(m, t, x) == t + [x];
      PeersSnoc(m, t, x, p);
    }
  }

  /** The step of InsertPeers where `x` is inserted before a greater last element. */
  lemma InsertPeersPastGreater(m: SortMethod, t: seq<Todo>, last: Todo, x: Todo, p: Todo)
    requires Compare(m, last, x) > 0
    requires Peers(m, Insert(m, t, x), p) == Peers(m, t, p) + (if Compare(m, x, p) == 0 then [x] else [])
    ensures Peers(m, Insert(m, t + [last], x), p) == Peers(m, t + [last], p) + (if Compare(m, x, p) == 0 then [x] else [])
  {
    var t2 := t + [last];
    assert t2[..|t2| - 1] == t && t2[|t2| - 1] == last;
    var u := Insert(m, t, x);
    assert Insert(m, t2, x) == u + [last];
    PeersSnoc(m, u, last, p);
    PeersSnoc(m, t, last, p);
    NotBothPeers(m, last, x, p);
  }

  lemma {:induction false} SortByIsStableSort(m: SortMethod, s: seq<Todo>)
    ensures Sorted(m, SortBy(m, s))
    ensures multiset(SortBy(m, s)) == multiset(s)
    ensures Stable(m, s, SortBy(m, s))
  {
    if s != [] {
      var s', x := s[..|s| - 1], s[|s| - 1];
      SortByIsStableSort(m, s');
      InsertSorted(m, SortBy(m, s'), x);
      InsertMultiset(m, SortBy(m, s'), x);
      assert s == s' + [x];
      forall p ensures Peers(m, SortBy(m, s), p) == Peers(m, s, p) {
        InsertPeers(m, SortBy(m, s'), x, p);
      }
    }
  }

  /** The meaning of Sorted for the two real sort methods: every open todo
      precedes every completed one, and within each group the key is
      non-increasing. */
  lemma SortedMeaning(m: SortMethod, r: seq<Todo>, i: int, j: int)
    requires Sorted(m, r) && 0 <= i < j < |r|
    ensures r[i].done ==> r[j].done
    ensures r[i].done == r[j].done && m == ByPriority ==>
              PriorityValue(r[i].priority) >= PriorityValue(r[j].priority)
    ensures r[i].done == r[j].done && m == ByCreatedAt ==> r[i].createdAt >= r[j].createdAt
  {
    assert Compare(m, r[i], r[j]) <= 0;
  }

  /** Insert places `x` right after the longest prefix whose last element
      does not compare greater than `x`. */
  lemma {:induction false} InsertAt(m: SortMethod, pre: seq<Todo>, j: nat, x: Todo)
    requires j <= |pre|
    requires forall k | j <= k < |pre| :: Compare(m, pre[k], x) > 0
    requires j == 0 || Compare(m, pre[j - 1], x) <= 0
    ensures Insert(m, pre, x) == pre[..j] + [x] + pre[j..]
    decreases |pre|
  {
    if j < |pre| {
      var t' := pre[..|pre| - 1];
      assert t'[..j] == pre[..j];
      InsertAt(m, t', j, x);
      assert pre[j..] == t'[j..] + [pre[|pre| - 1]];
    } else {
      assert pre[..j] == pre;
    }
  }

  /** One pass of the in-place insertion sort: `a[i]` is inserted into the
      sorted prefix `a[..i]`, shifting greater elements one slot right. */
  method InsertInPlace(a: array<Todo>, i: nat, m: SortMethod)
    requires i < a.Length
    modifies a
    ensures a[..i + 1] == Insert(m, old(a[..i]), old(a[i]))
    ensures a[i + 1..] == old(a[i + 1..])
  {
    var x := a[i];
    ghost var pre := a[..i];
    var j := i;
    while j > 0 && Compare(m, a[j - 1], x) > 0
      invariant 0 <= j <= i
      invariant forall k | 0 <= k < j :: a[k] == pre[k]
      invariant forall k | j < k <= i :: a[k] == pre[k - 1]
      invariant forall k | i < k < a.Length :: a[k] == old(a[k])
      invariant forall k | j <= k < i :: Compare(m, pre[k], x) > 0
    {
      a[j] := a[j - 1];
      j := j - 1;
    }
    a[j] := x;
    ShiftedIsInsert(m, pre, j, x, a[..i + 1]);
    assert a[i + 1..] == old(a[i + 1..]);
  }

  /** The array contents after the shifting loop of InsertInPlace are the insert. */
  lemma ShiftedIsInsert(m: SortMethod, pre: seq<Todo>, j: nat, x: Todo, b: seq<Todo>)
    requires j <= |pre| && |b| == |pre| + 1
    requires forall k | 0 <= k < j :: b[k] == pre[k]
    requires b[j] == x
    requires forall k | j < k < |b| :: b[k] == pre[k - 1]
    requires forall k | j <= k < |pre| :: Compare(m, pre[k], x) > 0
    requires j == 0 || Compare(m, pre[j - 1], x) <= 0
    ensures b == Insert(m, pre, x)
  {
    InsertAt(m, pre, j, x);
    var res := pre[..j] + [x] + pre[j..];
    forall k | 0 <= k < |b| ensures b[k] == res[k] {
      if k < j {
        assert res[k] == pre[k];
      } else if k > j {
        assert res[k] == pre[k - 1];
      }
    }
  }

  /** `getSortedTodos`: with 'none' the list itself; otherwise a copy sorted
      in place by the comparator (insertion sort, which is stable; every
      stable sort gives the same result). The input is a value and is not
      changed. */
  method SortedTodos(todos: seq<Todo>, m: SortMethod) returns (r: seq<Todo>)
    ensures m == NoSort ==> r == todos
    ensures m != NoSort ==> r == SortBy(m, todos)
    ensures Sorted(m, r) || m == NoSort
    ensures multiset(r) == multiset(todos)
    ensures m != NoSort ==> Stable(m, todos, r)
  {
    if m == NoSort {
      return todos;
    }
    var n := |todos|;
    var a := new Todo[n](k requires 0 <= k < n => todos[k]);
    assert a[..] == todos;
    var i := 0;
    while i < n
      invariant 0 <= i <= n
      invariant a[..i] == SortBy(m, todos[..i])
      invariant a[i..] == todos[i..]
    {
      ghost var before := a[..];
      SortByPrefixStep(m, todos, i);
      TailStep(before, todos, i);
      InsertInPlace(a, i, m);
      i := i + 1;
    }
    assert todos[..n] == todos;
    r := a[..];
    SortByIsStableSort(m, todos);
  }

  /** Sorting one more element of a prefix is one more insertion. */
  lemma SortByPrefixStep(m: SortMethod, s: seq<Todo>, i: nat)
    requires i < |s|
    ensures SortBy(m, s[..i + 1]) == Insert(m, SortBy(m, s[..i]), s[i])
  {
    assert s[..i + 1][..i] == s[..i];
  }

  /** Two sequences that agree from `i` on agree at `i` and from `i + 1` on. */
  lemma TailStep<T>(b: seq<T>, t: seq<T>, i: nat)
    requires i < |b| == |t| && b[i..] == t[i..]
    ensures b[i] == t[i] && b[i + 1..] == t[i + 1..]
  {
    assert b[i] == b[i..][0] && t[i] == t[i..][0];
    assert b[i + 1..] == b[i..][1..] && t[i + 1..] == t[i..][1..];
  }

  // ---------------------------------------------------------------------
  // Section edits

  /** `addSection`: one new expanded section at the end. */
  function AddSection(sections: seq<Section>, name: string, newId: string): (r: seq<Section>)
    ensures |r| == |sections| + 1
    ensures r[..|sections|] == sections
    ensures r[|sections|] == Section(newId, name, true)
  {
    sections + [Section(newId, name, true)]
  }

  /** `renameSection`: only the name changes, and only where the id matches. */
  function RenameSection(sections: seq<Section>, id: string, name: string): (r: seq<Section>)
    ensures |r| == |sections|
    ensures forall i | 0 <= i < |r| ::
      && r[i].id == sections[i].id
      && r[i].expanded == sections[i].expanded
      && r[i].name == (if sections[i].id == id then name else sections[i].name)
  {
    seq(|sections|, i requires 0 <= i < |sections| =>
      if sections[i].id == id then sections[i].(name := name) else sections[i])
  }

  /** Renaming twice is renaming once with the second name. */
  lemma RenameTwice(sections: seq<Section>, id: string, n1: string, n2: string)
    ensures RenameSection(RenameSection(sections, id, n1), id, n2) == RenameSection(sections, id, n2)
  {
  }

  /** The sections without those whose id is `id`, in order. */
  function WithoutSection(sections: seq<Section>, id: string): (r: seq<Section>)
    ensures forall s :: s in r <==> s in sections && s.id != id
    ensures |r| <= |sections|
  {
    if sections == [] then []
    else (if sections[0].id == id then [] else [sections[0]]) + WithoutSection(sections[1..], id)
  }

  /** Filtering distributes over concatenation, so the kept sections keep
      their relative order. */
  lemma {:induction false} WithoutSectionAppend(a: seq<Section>, b: seq<Section>, id: string)
    ensures WithoutSection(a + b, id) == WithoutSection(a, id) + WithoutSection(b, id)
  {
    if a == [] {
      assert a + b == b;
    } else {
      assert (a + b)[0] == a[0];
      assert (a + b)[1..] == a[1..] + b;
      WithoutSectionAppend(a[1..], b, id);
    }
  }

  /** The todos with every member of section `id` moved to 'today'. */
  function ReassignTodos(todos: seq<Todo>, id: string): (r: seq<Todo>)
    ensures |r| == |todos|
    ensures forall i | 0 <= i < |r| ::
      r[i] == if todos[i].section == Some(id) then todos[i].(section := Some(TodaySection)) else todos[i]
  {
    seq(|todos|, i requires 0 <= i < |todos| =>
      if todos[i].section == Some(id) then todos[i].(section := Some(TodaySection)) else todos[i])
  }

  /** `deleteSection`: the section goes, and its todos are reassigned to
      'today' (not deleted); nothing else changes. */
  function DeleteSection(st: State, id: string): (r: State)
    ensures forall s :: s in r.sections <==> s in st.sections && s.id != id
    ensures |r.todos| == |st.todos|
    ensures forall i | 0 <= i < |r.todos| ::
      && r.todos[i].id == st.todos[i].id
      && r.todos[i].text == st.todos[i].text
      && r.todos[i].description == st.todos[i].description
      && r.todos[i].done == st.todos[i].done
      && r.todos[i].priority == st.todos[i].priority
      && r.todos[i].createdAt == st.todos[i].createdAt
      && r.todos[i].section == (if st.todos[i].section == Some(id) then Some(TodaySection) else st.todos[i].section)
  {
    State(ReassignTodos(st.todos, id), WithoutSection(st.sections, id))
  }

  /** Deleting any section other than 'today' leaves no todo in it; deleting
      'today' itself leaves its todos pointing at a section that no longer
      exists. */
  lemma DeleteSectionOrphans(st: State, id: string)
    ensures id != TodaySection ==>
      forall i | 0 <= i < |st.todos| :: DeleteSection(st, id).todos[i].section != Some(id)
    ensures id == TodaySection ==>
      && DeleteSection(st, id).todos == st.todos
      && forall s | s in DeleteSection(st, id).sections :: s.id != TodaySection
  {
    if id == TodaySection {
      var r := DeleteSection(st, id).todos;
      assert forall i | 0 <= i < |r| :: r[i] == st.todos[i];
    }
  }

  /** Adding a section with a fresh id and then deleting it restores the sections. */
  lemma {:induction false} AddThenDeleteSection(sections: seq<Section>, name: string, newId: string)
    requires forall s | s in sections :: s.id != newId
    ensures WithoutSection(AddSection(sections, name, newId), newId) == sections
  {
    WithoutSectionAppend(sections, [Section(newId, name, true)], newId);
    WithoutSectionNone(sections, newId);
    assert [Section(newId, name, true)][1..] == [];
  }

  lemma {:induction false} WithoutSectionNone(sections: seq<Section>, id: string)
    requires forall s | s in sections :: s.id != id
    ensures WithoutSection(sections, id) == sections
  {
    if sections != [] {
      assert forall s | s in sections[1..] :: s in sections;
      WithoutSectionNone(sections[1..], id);
    }
  }

  /** `reorderSections(from, to)`: the section at `from` ends up at `to`
      (both resolved as `splice` resolves them), and the result is a
      permutation of the same length. */
  method ReorderSections(sections: seq<Section>, from: int, to: int) returns (r: seq<Section>)
    requires |sections| > 0 && from < |sections|
    ensures |r| == |sections|
    ensures multiset(r) == multiset(sections)
    ensures r == Splice.Moved(sections, Splice.ResolveIndex(from, |sections|), Splice.ResolveIndex(to, |sections| - 1))
    ensures r[Splice.ResolveIndex(to, |sections| - 1)] == sections[Splice.ResolveIndex(from, |sections|)]
  {
    r := Splice.Move(sections, from, to);
    Splice.MovedIsPermutation(sections, Splice.ResolveIndex(from, |sections|), Splice.ResolveIndex(to, |sections| - 1));
  }
}
