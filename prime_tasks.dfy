/**
 * The task list of 22-prime_factors.c: create_task builds a PENDING task
 * around an entry function and its parameter, and exec_tasks walks a list
 * running every task still PENDING and storing what its entry returned.
 *
 * Pointers are numbers with 0 for NULL.  Calling an entry function is
 * foreign code, so it is the parameter `call`, which maps an entry and a
 * parameter to the result pointer the entry returns.
 */
module PrimeTasks {
  import opened Wrappers

  datatype Status = Pending | Started | Success | Failure

  /** The fields of a task_t the list executor reads and writes. */
  datatype TaskState = TaskState(entry: nat, param: nat, status: Status, result: nat)

  /** A task_t on the heap; several list nodes may point at the same one. */
  class Task {
    var entry: nat
    var param: nat
    var status: Status
    var result: nat

    function State(): TaskState
      reads this
    {
      TaskState(entry, param, status, result)
    }

    /** A fresh PENDING task with no result. */
    constructor (entry: nat, param: nat)
      ensures State() == TaskState(entry, param, Pending, 0)
    {
      this.entry := entry;
      this.param := param;
      status := Pending;
      result := 0;
    }
  }

  /**
   * create_task: NULL for a NULL entry or when malloc fails (`allocOk`
   * false), else a new task holding the entry and parameter.
   */
  method CreateTask(entry: nat, param: nat, allocOk: bool) returns (t: Task?)
    ensures entry == 0 || !allocOk ==> t == null
    ensures entry != 0 && allocOk ==> t != null && fresh(t) && t.State() == TaskState(entry, param, Pending, 0)
  {
    if entry == 0 {
      return null;
    }
    if !allocOk {
      return null;
    }
    t := new Task(entry, param);
  }

  /**
   * One visit of exec_tasks: a PENDING task is started, its entry called
   * with its parameter, and it ends in SUCCESS with a non-NULL result or
   * FAILURE with NULL; a task in any other state is left as it is.
   */
  function Run(s: TaskState, call: (nat, nat) -> nat): (r: TaskState)
    ensures r.entry == s.entry && r.param == s.param
    ensures r.status != Pending
    ensures s.status != Pending ==> r == s
  {
    if s.status == Pending then
      var result := call(s.entry, s.param);
      s.(status := if result == 0 then Failure else Success, result := result)
    else s
  }

  /** A task that was run ends SUCCESS exactly when the entry returned non-NULL. */
  lemma RunOutcome(s: TaskState, call: (nat, nat) -> nat)
    requires s.status == Pending
    ensures Run(s, call).result == call(s.entry, s.param)
    ensures Run(s, call).status == Success <==> call(s.entry, s.param) != 0
    ensures Run(s, call).status == Failure <==> call(s.entry, s.param) == 0
  {
  }

  /** Running a task a second time changes nothing. */
  lemma RunTwice(s: TaskState, call: (nat, nat) -> nat)
    ensures Run(Run(s, call), call) == Run(s, call)
  {
  }

  /**
   * A list_t as exec_tasks reads it: the contents of its nodes in order
   * (NULL contents are null) and its size field.  A NULL head is an empty
   * node sequence.
   */
  datatype TaskList = TaskList(contents: seq<Task?>, size: nat)

  /** Whether exec_tasks walks the list at all: a non-NULL list with a head. */
  predicate Walks(tasks: Option<TaskList>)
  {
    tasks.Some? && tasks.value.contents != []
  }

  /** The walk reads only nodes that exist. */
  predicate SizeFits(tasks: Option<TaskList>)
  {
    Walks(tasks) ==> tasks.value.size <= |tasks.value.contents|
  }

  /** The tasks the first size nodes point at. */
  function Visited(tasks: Option<TaskList>): set<Task>
    requires SizeFits(tasks)
  {
    if Walks(tasks) then set t: Task | t in tasks.value.contents[..tasks.value.size] else {}
  }

  /**
   * exec_tasks: every task in the first size nodes ends as Run leaves it,
   * whether one node or several point at it; tasks elsewhere are not
   * touched, and the result is NULL.  `started` lists, in order, the
   * positions whose task was started: the first node of each task that
   * was PENDING, so no entry is called twice.
   */
  method ExecTasks(tasks: Option<TaskList>, call: (nat, nat) -> nat) returns (r: nat, started: seq<nat>)
    requires SizeFits(tasks)
    modifies Visited(tasks)
    ensures r == 0
    ensures forall t :: t in Visited(tasks) ==> t.State() == Run(old(t.State()), call)
    ensures !Walks(tasks) ==> started == []
    ensures Walks(tasks) ==> var list := tasks.value;
      (forall k :: 0 <= k < |started| ==> started[k] < list.size) &&
      (forall k, l :: 0 <= k < l < |started| ==> started[k] < started[l]) &&
      (forall j :: 0 <= j < list.size ==>
        (j in started <==> list.contents[j] != null && old(list.contents[j].status) == Pending &&
                           list.contents[j] !in list.contents[..j]))
  {
    started := [];
    if tasks.None? || tasks.value.contents == [] {
      return 0, started;
    }
    var list := tasks.value;
    for i := 0 to list.size
      invariant forall t :: t in Visited(tasks) ==>
        t.State() == if t in list.contents[..i] then Run(old(t.State()), call) else old(t.State())
      invariant forall k :: 0 <= k < |started| ==> started[k] < i
      invariant forall k, l :: 0 <= k < l < |started| ==> started[k] < started[l]
      invariant forall j :: 0 <= j < i ==>
        (j in started <==> list.contents[j] != null && old(list.contents[j].status) == Pending &&
                           list.contents[j] !in list.contents[..j])
    {
      assert list.contents[..i + 1] == list.contents[..i] + [list.contents[i]];
      var task := list.contents[i];
      if task == null {
        continue;
      }
      if task.status == Pending {
        task.status := Started;
        task.result := call(task.entry, task.param);
        if task.result == 0 {
          task.status := Failure;
        } else {
          task.status := Success;
        }
        started := started + [i];
      }
    }
    return 0, started;
  }
}
