/**
 * The to-do page: a newest-first list of task records that the page edits
 * in place, the filtered view it renders, and the category options it offers.
 */
module Todo {
  import opened Collections
  import opened Text

  /** One task record as the page stores it. */
  datatype Task = Task(
    id: string,
    text: string,
    priority: string,
    category: string,
    tags: seq<string>,
    completed: bool,
    createdAt: string)

  const DefaultCategory: string := "General"

  /** The category-filter value meaning "no category filter". */
  const AllCategories: string := "all"

  /** No two tasks share an id. */
  ghost predicate UniqueIds(ts: seq<Task>)
  {
    forall i, j :: 0 <= i < j < |ts| ==> ts[i].id != ts[j].id
  }

  /** Position `k` holds the first task with this id. */
  ghost predicate IsFirstWithId(ts: seq<Task>, id: string, k: int)
  {
    0 <= k < |ts| && ts[k].id == id && forall m :: 0 <= m < k ==> ts[m].id != id
  }

  /** The category a new task gets: the trimmed input, or `General` when that is empty. */
  function CategoryOrDefault(input: string): (c: string)
    ensures c != [] && IsTrimmed(c)
    ensures Trim(input) != [] ==> c == Trim(input)
    ensures Trim(input) == [] ==> c == DefaultCategory
  {
    var cat := Trim(input);
    if cat == [] then
      assert IsTrimmed(DefaultCategory) by {
        assert DefaultCategory[0] == 'G' && DefaultCategory[|DefaultCategory| - 1] == 'l';
      }
      DefaultCategory
    else
      assert IsTrimmed(cat) by {
        var _, _ := TrimIsSlice(input);
      }
      cat
  }

  function HasId(id: string): Task -> bool
  {
    (t: Task) => t.id == id
  }

  /** `t => t.id !== id` */
  function OtherId(id: string): Task -> bool
  {
    (t: Task) => t.id != id
  }

  /** `t => !t.completed` */
  predicate IsOpen(t: Task)
  {
    !t.completed
  }

  /** `todos.find(t => t.id === id)`, as the position of the task found. */
  function FindIndex(ts: seq<Task>, id: string): (r: Option<nat>)
    ensures r.Some? ==> IsFirstWithId(ts, id, r.value)
    ensures r.None? <==> forall k :: 0 <= k < |ts| ==> ts[k].id != id
  {
    FindFirst(HasId(id), ts)
  }

  /**
   * The first task with this id replaced by `f` of it; the model of
   * finding a record and assigning one of its fields.
   */
  function UpdateFirst(ts: seq<Task>, id: string, f: Task -> Task): (r: seq<Task>)
    ensures |r| == |ts|
    ensures forall k :: 0 <= k < |ts| ==> r[k] == if IsFirstWithId(ts, id, k) then f(ts[k]) else ts[k]
    decreases |ts|
  {
    if ts == [] then []
    else if ts[0].id == id then [f(ts[0])] + ts[1..]
    else [ts[0]] + UpdateFirst(ts[1..], id, f)
  }

  /** Updating the first match is the same as overwriting the position `find` returns. */
  lemma UpdateFirstAt(ts: seq<Task>, id: string, f: Task -> Task)
    ensures UpdateFirst(ts, id, f) == match FindIndex(ts, id)
                                      case None => ts
                                      case Some(i) => ts[i := f(ts[i])]
  {
    var r := UpdateFirst(ts, id, f);
    match FindIndex(ts, id)
    case None =>
      assert forall k :: 0 <= k < |ts| ==> !IsFirstWithId(ts, id, k);
    case Some(i) =>
      assert forall k :: 0 <= k < |ts| ==> (IsFirstWithId(ts, id, k) <==> k == i);
  }

  /** `t.completed = !t.completed` */
  function Flip(t: Task): Task
  {
    t.(completed := !t.completed)
  }

  /** `item.text = txt` */
  function Retext(txt: string): Task -> Task
  {
    (t: Task) => t.(text := txt)
  }

  /** An update that keeps ids keeps the position of the first match, so toggling twice restores the list. */
  lemma {:induction false} ToggleTwice(ts: seq<Task>, id: string)
    ensures UpdateFirst(UpdateFirst(ts, id, Flip), id, Flip) == ts
  {
    var once := UpdateFirst(ts, id, Flip);
    assert forall k :: 0 <= k < |ts| ==> once[k].id == ts[k].id;
    assert forall k :: IsFirstWithId(once, id, k) <==> IsFirstWithId(ts, id, k);
  }

  /** Editing to the same text twice is the same as editing once. */
  lemma {:induction false} RetextIdempotent(ts: seq<Task>, id: string, txt: string)
    ensures UpdateFirst(UpdateFirst(ts, id, Retext(txt)), id, Retext(txt)) == UpdateFirst(ts, id, Retext(txt))
  {
    var once := UpdateFirst(ts, id, Retext(txt));
    assert forall k :: 0 <= k < |ts| ==> once[k].id == ts[k].id;
    assert forall k :: IsFirstWithId(once, id, k) <==> IsFirstWithId(ts, id, k);
  }

  /** An update that keeps ids keeps them unique. */
  lemma UpdateFirstKeepsUniqueIds(ts: seq<Task>, id: string, f: Task -> Task)
    requires UniqueIds(ts)
    requires forall t :: f(t).id == t.id
    ensures UniqueIds(UpdateFirst(ts, id, f))
  {
  }

  /** Adding a task whose id is new keeps the ids unique. */
  lemma PrependKeepsUniqueIds(t: Task, ts: seq<Task>)
    ensures UniqueIds(ts) && (forall k :: 0 <= k < |ts| ==> ts[k].id != t.id) ==> UniqueIds([t] + ts)
  {
  }

  /** Keeping some of the tasks keeps their ids unique. */
  lemma {:induction false} FilterKeepsUniqueIds(p: Task -> bool, ts: seq<Task>)
    requires UniqueIds(ts)
    ensures UniqueIds(Filter(p, ts))
    decreases |ts|
  {
    if ts != [] {
      FilterKeepsUniqueIds(p, ts[1..]);
      var rest := Filter(p, ts[1..]);
      assert forall i :: 0 <= i < |rest| ==> rest[i].id != ts[0].id by {
        forall i | 0 <= i < |rest| ensures rest[i].id != ts[0].id {
          var k :| 0 <= k < |ts[1..]| && ts[1..][k] == rest[i];
          assert ts[k + 1] == rest[i];
        }
      }
    }
  }

  /** `todos.filter(t => t.id !== id)`: delete every task with this id. */
  function WithoutId(ts: seq<Task>, id: string): (r: seq<Task>)
    ensures IsSubsequence(r, ts)
    ensures forall i :: 0 <= i < |r| ==> r[i].id != id
    ensures forall i :: 0 <= i < |ts| && ts[i].id != id ==> ts[i] in r
  {
    Filter(OtherId(id), ts)
  }

  /** Deleting keeps every other task exactly as often as it occurred. */
  lemma WithoutIdCount(ts: seq<Task>, id: string, t: Task)
    ensures Count(WithoutId(ts, id), t) == if t.id != id then Count(ts, t) else 0
  {
    FilterCount(OtherId(id), ts, t);
  }

  /** `todos.filter(t => !t.completed)`: clear the completed tasks. */
  function Incomplete(ts: seq<Task>): (r: seq<Task>)
    ensures IsSubsequence(r, ts)
    ensures forall i :: 0 <= i < |r| ==> !r[i].completed
    ensures forall i :: 0 <= i < |ts| && !ts[i].completed ==> ts[i] in r
  {
    Filter(IsOpen, ts)
  }

  /** Clearing completed tasks keeps every open task exactly as often as it occurred. */
  lemma IncompleteCount(ts: seq<Task>, t: Task)
    ensures Count(Incomplete(ts), t) == if !t.completed then Count(ts, t) else 0
  {
    FilterCount(IsOpen, ts, t);
  }

  /** Some tag of `t`, lowercased, equals `tag`. */
  predicate HasTag(t: Task, tag: string)
  {
    exists k :: 0 <= k < |t.tags| && ToLower(t.tags[k]) == tag
  }

  /** The render filter's test for one task, given the normalised filter values. */
  predicate Shown(t: Task, cat: string, tag: string)
  {
    (cat == AllCategories || t.category == cat) && (tag == [] || HasTag(t, tag))
  }

  /** The render filter as the predicate handed to `filter`. */
  function ShownBy(cat: string, tag: string): Task -> bool
  {
    (t: Task) => Shown(t, cat, tag)
  }

  /**
   * The tasks `render` lists for the category select value and the tag
   * filter text: an empty select value means `all`; the tag filter is
   * trimmed and lowercased and compared with each lowercased tag.
   */
  function VisibleTasks(ts: seq<Task>, catValue: string, tagValue: string): (r: seq<Task>)
    ensures IsSubsequence(r, ts)
    ensures forall i :: 0 <= i < |r| ==>
      && (catValue != [] && catValue != AllCategories ==> r[i].category == catValue)
      && (Trim(tagValue) != [] ==> HasTag(r[i], ToLower(Trim(tagValue))))
    ensures forall i :: 0 <= i < |ts| ==>
      (   (catValue == [] || catValue == AllCategories || ts[i].category == catValue)
       && (Trim(tagValue) == [] || HasTag(ts[i], ToLower(Trim(tagValue))))
       ==> ts[i] in r)
  {
    var cat := if catValue == [] then AllCategories else catValue;
    var tag := ToLower(Trim(tagValue));
    Filter(ShownBy(cat, tag), ts)
  }

  /** Rendering lists each task that passes the filters exactly as often as it occurs, and no other. */
  lemma VisibleTasksCount(ts: seq<Task>, catValue: string, tagValue: string, t: Task)
    ensures Count(VisibleTasks(ts, catValue, tagValue), t) ==
      if (catValue == [] || catValue == AllCategories || t.category == catValue)
         && (Trim(tagValue) == [] || HasTag(t, ToLower(Trim(tagValue))))
      then Count(ts, t) else 0
  {
    var cat := if catValue == [] then AllCategories else catValue;
    var tag := ToLower(Trim(tagValue));
    assert tag == [] <==> Trim(tagValue) == [];
    FilterCount(ShownBy(cat, tag), ts, t);
  }

  /** With no category and a blank tag filter, the whole list is shown. */
  lemma VisibleUnfiltered(ts: seq<Task>, catValue: string, tagValue: string)
    requires catValue == [] || catValue == AllCategories
    requires forall i :: 0 <= i < |tagValue| ==> IsSpace(tagValue[i])
    ensures VisibleTasks(ts, catValue, tagValue) == ts
  {
    TrimBlank(tagValue);
    FilterAll(ShownBy(AllCategories, []), ts);
  }

  /** The categories of the tasks, in list order. */
  function Categories(ts: seq<Task>): (cs: seq<string>)
    ensures |cs| == |ts| && forall k :: 0 <= k < |ts| ==> cs[k] == ts[k].category
  {
    seq(|ts|, k requires 0 <= k < |ts| => ts[k].category)
  }

  function NonEmptyCategories(ts: seq<Task>): seq<string>
  {
    Filter((c: string) => c != [], Categories(ts))
  }

  /**
   * `Array.from(new Set(todos.map(t => t.category).filter(Boolean)))`: the
   * non-empty categories, each once.
   */
  function CategoryOptions(ts: seq<Task>): (r: seq<string>)
    ensures NoDuplicates(r)
    ensures forall i :: 0 <= i < |r| ==> r[i] != [] && exists k :: 0 <= k < |ts| && ts[k].category == r[i]
    ensures forall k :: 0 <= k < |ts| && ts[k].category != [] ==> ts[k].category in r
  {
    var cs := NonEmptyCategories(ts);
    assert forall k :: 0 <= k < |ts| && ts[k].category != [] ==> ts[k].category in cs by {
      assert forall k :: 0 <= k < |ts| ==> Categories(ts)[k] == ts[k].category;
    }
    Distinct(cs)
  }

  /** The options appear in the order in which their categories first occur in the list. */
  lemma CategoryOptionsOrder(ts: seq<Task>, i: nat, j: nat)
    requires i < j < |CategoryOptions(ts)|
    ensures CategoryOptions(ts)[i] in Categories(ts) && CategoryOptions(ts)[j] in Categories(ts)
    ensures FirstIndex(Categories(ts), CategoryOptions(ts)[i]) < FirstIndex(Categories(ts), CategoryOptions(ts)[j])
  {
    var cs := NonEmptyCategories(ts);
    DistinctFirstOccurrenceOrder(cs, i, j);
    FilterFirstIndexOrder((c: string) => c != [], Categories(ts), CategoryOptions(ts)[i], CategoryOptions(ts)[j]);
  }

  /** Filtering keeps the relative order of first occurrences. */
  lemma {:induction false} FilterFirstIndexOrder<T>(p: T -> bool, s: seq<T>, x: T, y: T)
    requires x in Filter(p, s) && y in Filter(p, s)
    requires FirstIndex(Filter(p, s), x) < FirstIndex(Filter(p, s), y)
    ensures x in s && y in s && FirstIndex(s, x) < FirstIndex(s, y)
    decreases |s|
  {
    var f := Filter(p, s);
    var rest := Filter(p, s[1..]);
    if s[0] != x {
      assert s[0] != y;
      assert f == rest || (p(s[0]) && f == [s[0]] + rest);
      if p(s[0]) {
        assert f[0] == s[0];
        assert FirstIndex(f, x) == 1 + FirstIndex(rest, x);
        assert FirstIndex(f, y) == 1 + FirstIndex(rest, y);
      }
      FilterFirstIndexOrder(p, s[1..], x, y);
    }
  }

  /**
   * The to-do page's state: the list `todos`, newest first. Each method is
   * one of the page's event handlers; the list is written back to local
   * storage after each change.
   */
  class TodoStore {
    var todos: seq<Task>

    /**
     * `load()`: the list read from local storage; `None` stands for a
     * missing entry or one that does not parse, both of which give the
     * empty list.
     */
    constructor (stored: Option<seq<Task>>)
      ensures todos == match stored
                       case Some(ts) => ts
                       case None => []
    {
      match stored
      case Some(ts) => todos := ts;
      case None => todos := [];
    }

    /**
     * The form's submit handler. A blank text adds nothing; otherwise a new
     * open task goes to the front. `id` and `createdAt` stand for the
     * clock readings the page takes.
     */
    method Add(id: string, createdAt: string, text: string, priority: string, category: string, tags: string)
      modifies this
      ensures Trim(text) == [] ==> todos == old(todos)
      ensures Trim(text) != [] ==>
        todos == [Task(id, Trim(text), priority, CategoryOrDefault(category), ParseTags(tags), false, createdAt)] + old(todos)
      ensures UniqueIds(old(todos)) && (forall k :: 0 <= k < |old(todos)| ==> old(todos)[k].id != id) ==> UniqueIds(todos)
    {
      var txt := Trim(text);
      if txt == [] {
        return;
      }
      var t := Task(id, txt, priority, CategoryOrDefault(category), ParseTags(tags), false, createdAt);
      PrependKeepsUniqueIds(t, todos);
      todos := [t] + todos;
    }

    /** The delete button: every task with this id goes. */
    method Delete(id: string)
      modifies this
      ensures todos == WithoutId(old(todos), id)
      ensures UniqueIds(old(todos)) ==> UniqueIds(todos)
    {
      if UniqueIds(todos) {
        FilterKeepsUniqueIds(OtherId(id), todos);
      }
      todos := WithoutId(todos, id);
    }

    /**
     * The focus-out handler of an inline edit. `content` is what the user
     * left in the text element. A blank edit changes no task and the
     * element's text is set back to the text of the first task with the
     * id. Otherwise that first task takes the trimmed text and the list is
     * rendered again, which puts `escapeHtml` of the text into the markup
     * of that task's row; the browser shows that markup decoded. `shown` is
     * the text of the first matching task's row afterwards; with an unknown
     * id it is the element as the user left it.
     */
    method Edit(id: string, content: string) returns (shown: string)
      modifies this
      ensures Trim(content) == [] ==> todos == old(todos)
      ensures Trim(content) == [] ==> shown == match FindIndex(old(todos), id)
                                               case Some(i) => old(todos)[i].text
                                               case None => ""
      ensures Trim(content) != [] ==> todos == UpdateFirst(old(todos), id, Retext(Trim(content)))
      ensures Trim(content) != [] ==> shown == if FindIndex(old(todos), id).Some? then HtmlDecode(EscapeHtml(Trim(content))) else content
      ensures Trim(content) != [] && FindIndex(old(todos), id).Some? && '&' !in content ==> shown == Trim(content)
      ensures UniqueIds(old(todos)) ==> UniqueIds(todos)
    {
      var txt := Trim(content);
      var found := FindIndex(todos, id);
      UpdateFirstAt(todos, id, Retext(txt));
      if txt == [] {
        shown := match found
                 case Some(i) => todos[i].text
                 case None => "";
        return;
      }
      shown := content;
      if found.Some? {
        var i := found.value;
        todos := todos[i := todos[i].(text := txt)];
        shown := HtmlDecode(EscapeHtml(txt));
        if '&' !in content {
          NotInTrim(content, '&');
          EscapeHtmlRoundTripWithoutAmpersand(txt);
        }
      }
    }

    /** `toggleComplete(id)`: flip the first task with this id. */
    method Toggle(id: string)
      modifies this
      ensures todos == UpdateFirst(old(todos), id, Flip)
      ensures UniqueIds(old(todos)) ==> UniqueIds(todos)
    {
      var found := FindIndex(todos, id);
      UpdateFirstAt(todos, id, Flip);
      if found.Some? {
        var i := found.value;
        todos := todos[i := todos[i].(completed := !todos[i].completed)];
      }
    }

    /** The clear-completed button. */
    method ClearCompleted()
      modifies this
      ensures todos == Incomplete(old(todos))
      ensures UniqueIds(old(todos)) ==> UniqueIds(todos)
    {
      if UniqueIds(todos) {
        FilterKeepsUniqueIds(IsOpen, todos);
      }
      todos := Incomplete(todos);
    }

    /** The clear-all button; `confirmed` is the user's answer to the confirmation prompt. */
    method ClearAll(confirmed: bool)
      modifies this
      ensures todos == if confirmed then [] else old(todos)
    {
      if !confirmed {
        return;
      }
      todos := [];
    }
  }
}
