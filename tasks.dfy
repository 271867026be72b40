/** The task records of the to-do list and the pure operations over the list:
    what adding, toggling, editing and deleting do to it, the status and
    search views, and the completed/total counter. */
module Tasks {
  import opened Wrappers
  import opened Seqs
  import opened JsString

  /** The values of the priority radio buttons. */
  datatype Priority = Low | Medium | High

  /** A to-do item. `id` is the creation timestamp in milliseconds; nothing
      keeps two items from sharing one. `deadline` is `None` for `null`. */
  datatype Task = Task(id: int, text: string, priority: Priority, deadline: Option<int>, completed: bool)

  /** What the store's own operations guarantee of every text: non-empty and
      already trimmed. Lists loaded from storage are not checked for it. */
  predicate WellFormed(tasks: seq<Task>)
  {
    forall i :: 0 <= i < |tasks| ==> tasks[i].text != "" && IsTrimmed(tasks[i].text)
  }

  // ---------------------------------------------------------------- add

  /** The add-button handler: the input is trimmed and refused when nothing
      is left; otherwise a new incomplete task is appended whose id is the
      current time, whose priority is the checked radio (low when none is)
      and whose deadline is the parsed deadline field (`None` when empty). */
  function AddTask(tasks: seq<Task>, input: string, checked: Option<Priority>, deadline: Option<int>, now: int): (r: seq<Task>)
    ensures Trim(input) == "" ==> r == tasks
    ensures Trim(input) != "" ==> |r| == |tasks| + 1 && r[..|tasks|] == tasks
    ensures Trim(input) != "" ==>
      r[|tasks|] == Task(now, Trim(input), checked.GetOr(Low), deadline, false)
  {
    var text := Trim(input);
    if text == "" then tasks
    else tasks + [Task(now, text, checked.GetOr(Low), deadline, false)]
  }

  /** Adding keeps every text non-empty and trimmed. */
  lemma AddKeepsWellFormed(tasks: seq<Task>, input: string, checked: Option<Priority>, deadline: Option<int>, now: int)
    requires WellFormed(tasks)
    ensures WellFormed(AddTask(tasks, input, checked, deadline, now))
  {
  }

  // ---------------------------------------------------------------- toggle

  function Flip(t: Task, id: int): Task
  {
    if t.id == id then t.(completed := !t.completed) else t
  }

  /** `toggleComplete(id)`: the list mapped so that every task carrying `id`
      has its completion flag inverted. */
  function Toggled(tasks: seq<Task>, id: int): (r: seq<Task>)
    ensures |r| == |tasks|
    ensures forall i :: 0 <= i < |tasks| ==> r[i] == Flip(tasks[i], id)
    decreases |tasks|
  {
    if tasks == [] then [] else [Flip(tasks[0], id)] + Toggled(tasks[1..], id)
  }

  /** Toggling only touches the completion flag, and only on the tasks that
      carry the id. */
  lemma ToggledChangesOnlyFlag(tasks: seq<Task>, id: int, i: int)
    requires 0 <= i < |tasks|
    ensures Toggled(tasks, id)[i] == tasks[i].(completed := Toggled(tasks, id)[i].completed)
    ensures Toggled(tasks, id)[i].completed != tasks[i].completed <==> tasks[i].id == id
  {
  }

  /** Toggling the same id twice restores the list. */
  lemma ToggledTwice(tasks: seq<Task>, id: int)
    ensures Toggled(Toggled(tasks, id), id) == tasks
  {
  }

  /** Toggling an id no task carries changes nothing. */
  lemma ToggledAbsent(tasks: seq<Task>, id: int)
    requires forall i :: 0 <= i < |tasks| ==> tasks[i].id != id
    ensures Toggled(tasks, id) == tasks
  {
  }

  lemma ToggledKeepsWellFormed(tasks: seq<Task>, id: int)
    requires WellFormed(tasks)
    ensures WellFormed(Toggled(tasks, id))
  {
  }

  // ---------------------------------------------------------------- edit

  /** `tasks.find(t => t.id === id)`, as an index: the first task carrying
      `id`. */
  function FirstIndexOf(tasks: seq<Task>, id: int): (r: Option<nat>)
    ensures r.Some? ==> r.value < |tasks| && tasks[r.value].id == id
    ensures r.Some? ==> forall j :: 0 <= j < r.value ==> tasks[j].id != id
    ensures r.None? <==> forall j :: 0 <= j < |tasks| ==> tasks[j].id != id
    decreases |tasks|
  {
    if tasks == [] then None
    else if tasks[0].id == id then Some(0)
    else match FirstIndexOf(tasks[1..], id)
      case None => None
      case Some(k) => Some(k + 1)
  }

  /** The prompt's answer is used when it is neither cancelled (`None`) nor
      empty after trimming. */
  predicate Accepted(reply: Option<string>)
  {
    reply.Some? && Trim(reply.value) != ""
  }

  /** `editTask(id)` with `reply` the prompt's answer: when some task carries
      `id` and the answer is accepted, the first such task gets the trimmed
      answer as its text; otherwise the list is unchanged. */
  function Edited(tasks: seq<Task>, id: int, reply: Option<string>): (r: seq<Task>)
    ensures |r| == |tasks|
    ensures FirstIndexOf(tasks, id).None? || !Accepted(reply) ==> r == tasks
    ensures forall i :: 0 <= i < |tasks| && Some(i) != FirstIndexOf(tasks, id) ==> r[i] == tasks[i]
    ensures Accepted(reply) && FirstIndexOf(tasks, id).Some? ==>
      var k := FirstIndexOf(tasks, id).value;
      r[k] == tasks[k].(text := Trim(reply.value))
  {
    match FirstIndexOf(tasks, id)
    case None => tasks
    case Some(k) =>
      if Accepted(reply) then tasks[k := tasks[k].(text := Trim(reply.value))] else tasks
  }

  /** Editing never changes ids, so repeating the same edit changes nothing
      more. */
  lemma EditedIdempotent(tasks: seq<Task>, id: int, reply: Option<string>)
    ensures Edited(Edited(tasks, id, reply), id, reply) == Edited(tasks, id, reply)
  {
    var once := Edited(tasks, id, reply);
    match FirstIndexOf(tasks, id)
    case None =>
    case Some(k) =>
      if Accepted(reply) {
        var text := Trim(reply.value);
        assert once == tasks[k := tasks[k].(text := text)];
        SameIdsSameFirstIndex(tasks, once, id);
        assert once[k := once[k].(text := text)] == once;
      }
  }

  lemma {:induction false} SameIdsSameFirstIndex(a: seq<Task>, b: seq<Task>, id: int)
    requires |a| == |b|
    requires forall i :: 0 <= i < |a| ==> a[i].id == b[i].id
    ensures FirstIndexOf(a, id) == FirstIndexOf(b, id)
    decreases |a|
  {
    if a != [] && a[0].id != id {
      SameIdsSameFirstIndex(a[1..], b[1..], id);
    }
  }

  lemma EditedKeepsWellFormed(tasks: seq<Task>, id: int, reply: Option<string>)
    requires WellFormed(tasks)
    ensures WellFormed(Edited(tasks, id, reply))
  {
  }

  // ---------------------------------------------------------------- delete

  function IdIs(id: int): Task -> bool
  {
    (t: Task) => t.id == id
  }

  function IdIsNot(id: int): Task -> bool
  {
    (t: Task) => t.id != id
  }

  /** `deleteTask(id)`: the list filtered to the tasks not carrying `id`. */
  function Deleted(tasks: seq<Task>, id: int): (r: seq<Task>)
    ensures IsSubsequence(r, tasks)
    ensures forall t :: t in r <==> t in tasks && t.id != id
  {
    Filter(tasks, IdIsNot(id))
  }

  /** Deleting removes exactly the tasks carrying `id`, duplicates included:
      what is left and what was removed make up the old list. */
  lemma DeletedRemovesExactly(tasks: seq<Task>, id: int)
    ensures multiset(Deleted(tasks, id)) + multiset(Filter(tasks, IdIs(id))) == multiset(tasks)
    ensures |Deleted(tasks, id)| == |tasks| - |Filter(tasks, IdIs(id))|
  {
    FilterPartition(tasks, IdIsNot(id), IdIs(id));
  }

  /** Deleting an id no task carries changes nothing. */
  lemma DeletedAbsent(tasks: seq<Task>, id: int)
    requires forall i :: 0 <= i < |tasks| ==> tasks[i].id != id
    ensures Deleted(tasks, id) == tasks
  {
    FilterKeepsAll(tasks, IdIsNot(id));
  }

  /** With one task carrying `id`, deleting removes one task. */
  lemma DeletedUnique(tasks: seq<Task>, id: int, k: int)
    requires 0 <= k < |tasks| && tasks[k].id == id
    requires forall i :: 0 <= i < |tasks| && i != k ==> tasks[i].id != id
    ensures |Deleted(tasks, id)| == |tasks| - 1
    ensures tasks[k] !in Deleted(tasks, id)
  {
    DeletedRemovesExactly(tasks, id);
    OnlyOneWithId(tasks, id, k);
  }

  lemma {:induction false} OnlyOneWithId(tasks: seq<Task>, id: int, k: int)
    requires 0 <= k < |tasks| && tasks[k].id == id
    requires forall i :: 0 <= i < |tasks| && i != k ==> tasks[i].id != id
    ensures Filter(tasks, IdIs(id)) == [tasks[k]]
    decreases |tasks|
  {
    if k == 0 {
      FilterKeepsAll(tasks[1..], IdIsNot(id));
      NoneWithId(tasks[1..], id);
    } else {
      OnlyOneWithId(tasks[1..], id, k - 1);
    }
  }

  lemma {:induction false} NoneWithId(tasks: seq<Task>, id: int)
    requires forall i :: 0 <= i < |tasks| ==> tasks[i].id != id
    ensures Filter(tasks, IdIs(id)) == []
    decreases |tasks|
  {
    if tasks != [] {
      NoneWithId(tasks[1..], id);
    }
  }

  lemma DeletedKeepsWellFormed(tasks: seq<Task>, id: int)
    requires WellFormed(tasks)
    ensures WellFormed(Deleted(tasks, id))
  {
    var r := Deleted(tasks, id);
    forall i | 0 <= i < |r|
      ensures r[i].text != "" && IsTrimmed(r[i].text)
    {
      assert r[i] in tasks;
    }
  }

  // ---------------------------------------------------------------- views

  predicate IsActive(t: Task)
  {
    !t.completed
  }

  predicate IsCompleted(t: Task)
  {
    t.completed
  }

  /** Whether a task shows under the status filter button `filter`: the
      values "active" and "completed" select by the flag, any other value
      shows everything. */
  predicate MatchesStatus(t: Task, filter: string)
  {
    (filter == "active" ==> !t.completed) && (filter == "completed" ==> t.completed)
  }

  /** `filterByStatus(list)` under the current filter value. */
  function FilterByStatus(list: seq<Task>, filter: string): (r: seq<Task>)
    ensures IsSubsequence(r, list)
    ensures forall t :: t in r <==> t in list && MatchesStatus(t, filter)
  {
    if filter == "active" then Filter(list, IsActive)
    else if filter == "completed" then Filter(list, IsCompleted)
    else IsSubsequenceRefl(list); list
  }

  /** A filter value other than "active" and "completed" leaves the list as
      it is, "all" included. */
  lemma {:induction false} FilterByStatusOther(list: seq<Task>, filter: string)
    requires filter != "active" && filter != "completed"
    ensures FilterByStatus(list, filter) == list
  {
  }

  /** The "active" and "completed" views partition the list: each task,
      counted with its duplicates, appears in exactly one of them. */
  lemma StatusPartition(list: seq<Task>)
    ensures multiset(FilterByStatus(list, "active")) + multiset(FilterByStatus(list, "completed")) == multiset(list)
    ensures |FilterByStatus(list, "active")| + |FilterByStatus(list, "completed")| == |list|
  {
    FilterPartition(list, IsActive, IsCompleted);
  }

  function TextIncludes(lowerQuery: string): Task -> bool
  {
    (t: Task) => Includes(Lower(t.text), lowerQuery)
  }

  /** Whether a task shows under the search box contents `query`: the
      lower-cased query is empty or occurs in the lower-cased text. */
  ghost predicate MatchesSearch(t: Task, query: string)
  {
    Lower(query) == "" || exists k :: OccursAt(Lower(t.text), Lower(query), k)
  }

  /** `filterBySearch(list)` with `query` the search box contents. */
  function FilterBySearch(list: seq<Task>, query: string): (r: seq<Task>)
    ensures IsSubsequence(r, list)
    ensures Lower(query) == "" ==> r == list
  {
    var q := Lower(query);
    if q == "" then IsSubsequenceRefl(list); list else Filter(list, TextIncludes(q))
  }

  /** The search view holds exactly the tasks whose lower-cased text contains
      the lower-cased query. */
  lemma FilterBySearchMembers(list: seq<Task>, query: string)
    ensures forall t :: t in FilterBySearch(list, query) <==> t in list && MatchesSearch(t, query)
  {
    forall t
      ensures t in FilterBySearch(list, query) <==> t in list && MatchesSearch(t, query)
    {
      IncludesIff(Lower(t.text), Lower(query));
    }
  }

  /** The search ignores the case of the query. */
  lemma FilterBySearchCaseInsensitive(list: seq<Task>, query: string)
    ensures FilterBySearch(list, query) == FilterBySearch(list, Lower(query))
  {
    LowerIdempotent(query);
  }

  /** `updateTaskCount`: the number of completed tasks and the number of
      tasks, as in "done / total tasks". */
  function TaskCount(tasks: seq<Task>): (c: (nat, nat))
    ensures c.1 == |tasks|
    ensures c.0 + |Filter(tasks, IsActive)| == c.1
    ensures c.0 <= c.1
  {
    FilterPartition(tasks, IsCompleted, IsActive);
    (|Filter(tasks, IsCompleted)|, |tasks|)
  }

  /** Adding "Buy milk" to an empty list gives "0 / 1 tasks"; marking it
      complete gives "1 / 1 tasks". */
  lemma BuyMilkScenario(now: int)
    ensures TaskCount(AddTask([], "Buy milk", None, None, now)) == (0, 1)
    ensures TaskCount(Toggled(AddTask([], "Buy milk", None, None, now), now)) == (1, 1)
  {
    var s := "Buy milk";
    TrimFixedIff(s);
    var l := AddTask([], s, None, None, now);
    assert l == [Task(now, s, Low, None, false)];
    assert Filter(l, IsCompleted) == [];
    var l' := Toggled(l, now);
    assert l' == [Task(now, s, Low, None, true)];
    assert Filter(l', IsCompleted) == l';
  }
}
