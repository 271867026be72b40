/** The page's global state as one object: the task list and the current
    status filter, with the event handlers that change them and the queries
    the rendering code makes. Storage, the DOM and the clock stay outside:
    each handler receives what it would have read from them. */
module Store {
  import opened Wrappers
  import opened Seqs
  import opened JsString
  import opened Tasks

  class TaskStore {
    /** The global `tasks` array. */
    var tasks: seq<Task>
    /** The global `currentFilter`. */
    var currentFilter: string

    /** Start-up: the list read back from storage (`[]` when there is none)
        and the "all" filter. */
    constructor (saved: seq<Task>)
      ensures tasks == saved && currentFilter == "all"
    {
      tasks := saved;
      currentFilter := "all";
    }

    /** The add button. `input` is the text field, `checked` the checked
        priority radio, `deadline` the parsed deadline field and `now` the
        clock. Returns whether the "enter a task first" alert is raised
        instead. */
    method Add(input: string, checked: Option<Priority>, deadline: Option<int>, now: int) returns (alerted: bool)
      modifies this`tasks
      ensures alerted <==> Trim(input) == ""
      ensures tasks == AddTask(old(tasks), input, checked, deadline, now)
      ensures WellFormed(old(tasks)) ==> WellFormed(tasks)
    {
      var text := Trim(input);
      if text == "" {
        return true;
      }
      var task := Task(now, text, checked.GetOr(Low), deadline, false);
      tasks := tasks + [task];
      alerted := false;
      if WellFormed(old(tasks)) {
        AddKeepsWellFormed(old(tasks), input, checked, deadline, now);
      }
    }

    /** The checkbox of the tasks carrying `id`. */
    method ToggleComplete(id: int)
      modifies this`tasks
      ensures tasks == Toggled(old(tasks), id)
      ensures WellFormed(old(tasks)) ==> WellFormed(tasks)
    {
      tasks := Toggled(tasks, id);
      if WellFormed(old(tasks)) {
        ToggledKeepsWellFormed(old(tasks), id);
      }
    }

    /** The edit button of the task carrying `id`, with `reply` what the
        prompt returns. Returns whether the prompt is shown at all. */
    method EditTask(id: int, reply: Option<string>) returns (prompted: bool)
      modifies this`tasks
      ensures prompted <==> exists i :: 0 <= i < |old(tasks)| && old(tasks)[i].id == id
      ensures tasks == Edited(old(tasks), id, reply)
      ensures WellFormed(old(tasks)) ==> WellFormed(tasks)
    {
      var target := FirstIndexOf(tasks, id);
      if target.None? {
        return false;
      }
      prompted := true;
      var k := target.value;
      if Accepted(reply) {
        tasks := tasks[k := tasks[k].(text := Trim(reply.value))];
      }
      if WellFormed(old(tasks)) {
        EditedKeepsWellFormed(old(tasks), id, reply);
      }
    }

    /** The delete button of the tasks carrying `id`. */
    method DeleteTask(id: int)
      modifies this`tasks
      ensures tasks == Deleted(old(tasks), id)
      ensures WellFormed(old(tasks)) ==> WellFormed(tasks)
    {
      tasks := Deleted(tasks, id);
      if WellFormed(old(tasks)) {
        DeletedKeepsWellFormed(old(tasks), id);
      }
    }

    /** A filter button, `filter` being its `data-filter` value. */
    method SelectFilter(filter: string)
      modifies this`currentFilter
      ensures currentFilter == filter
    {
      currentFilter := filter;
    }

    /** The counter: how many tasks are done out of how many. */
    method Count() returns (done: nat, total: nat)
      ensures total == |tasks|
      ensures done + |FilterByStatus(tasks, "active")| == total
      ensures done == |FilterByStatus(tasks, "completed")|
    {
      StatusPartition(tasks);
      var c := TaskCount(tasks);
      done, total := c.0, c.1;
    }

    /** The tasks `renderTasks` draws: the status view under the current
        filter, narrowed by the search box contents `query`. */
    method VisibleTasks(query: string) returns (visible: seq<Task>)
      ensures visible == FilterBySearch(FilterByStatus(tasks, currentFilter), query)
      ensures IsSubsequence(visible, tasks)
      ensures forall t :: t in visible <==>
        t in tasks && MatchesStatus(t, currentFilter) && MatchesSearch(t, query)
    {
      var byStatus := FilterByStatus(tasks, currentFilter);
      visible := FilterBySearch(byStatus, query);
      FilterBySearchMembers(byStatus, query);
      IsSubsequenceTrans(visible, byStatus, tasks);
    }
  }
}
