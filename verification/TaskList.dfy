/** The doubly linked list of tasks with its cursor, the current task. */
module TaskList {
  import opened Status

  // ----- the list as a value

  /** A list without item k. */
  function Without<T>(s: seq<T>, k: nat): (r: seq<T>)
    requires k < |s|
    ensures |r| == |s| - 1
    ensures forall i | 0 <= i < |r| :: r[i] == if i < k then s[i] else s[i + 1]
  {
    s[..k] + s[k + 1..]
  }

  /** Where the cursor goes when the item under it, number k, is removed: to the next one, from the
      last one to the first, and nowhere from the only one. */
  function Successor(n: nat, k: nat): Option<nat>
    requires k < n
  {
    if k + 1 < n then Some(k + 1) else if n > 1 then Some(0) else None
  }

  ghost predicate Distinct<T>(s: seq<T>) {
    forall i, j | 0 <= i < j < |s| :: s[i] != s[j]
  }

  /** The order in which a scheduler that goes around from item k on meets the items. */
  function Rotation<T>(s: seq<T>, k: nat): seq<T>
    requires k < |s|
  {
    s[k..] + s[..k]
  }

  /** Removing the current item is one turn of the round: the rest of the round is unchanged. */
  lemma RemoveCurrentIsOneTurn<T>(s: seq<T>, k: nat)
    requires k < |s| && |s| > 1
    ensures var next := Successor(|s|, k).value; var k' := if next > k then next - 1 else next;
            k' < |s| - 1 && Without(s, k)[k'] == s[next] && Rotation(Without(s, k), k') == Rotation(s, k)[1..]
  {
    var w := Without(s, k);
    if k + 1 < |s| {
      assert Rotation(w, k) == Rotation(s, k)[1..];
    } else {
      assert Rotation(w, 0) == Rotation(s, k)[1..];
    }
  }

  /** The scheduler as the kernel keeps it: tasks numbered in the order of their creation, the current
      task, and separately the current process; a process is named by the number of its task. */
  datatype Scheduler = Scheduler(tasks: seq<nat>, created: nat, currentTask: Option<nat>, currentProcess: Option<nat>)

  datatype Op = Create | SwitchTo(id: nat) | FreeTask(id: nat)

  function IndexOf(s: seq<nat>, id: nat): (r: Option<nat>)
    ensures r.Some? ==> r.value < |s| && s[r.value] == id
    ensures r.None? <==> id !in s
  {
    if s == [] then None
    else if s[|s| - 1] == id then Some(|s| - 1)
    else IndexOf(s[..|s| - 1], id)
  }

  /** Creating a task; switching to a process, which moves both cursors; freeing a task, which moves
      only the cursor of the task list. */
  function Step(s: Scheduler, op: Op): Scheduler {
    match op
    case Create => s.(tasks := s.tasks + [s.created], created := s.created + 1)
    case SwitchTo(id) =>
      if id in s.tasks then s.(currentTask := Some(id), currentProcess := Some(id)) else s
    case FreeTask(id) =>
      match IndexOf(s.tasks, id)
      case None => s
      case Some(k) =>
        var next := match Successor(|s.tasks|, k) case Some(j) => Some(s.tasks[j]) case None => None;
        s.(tasks := Without(s.tasks, k), currentTask := if s.currentTask == Some(id) then next else s.currentTask)
  }

  /** A task; its number, counted in the order of creation, is for the proofs only. */
  class Task {
    ghost const id: nat
    var prev: Task?
    var next: Task?

    constructor (ghost id: nat)
      ensures this.id == id && prev == null && next == null
    {
      this.id := id;
      prev, next := null, null;
    }
  }

  /** A process, as far as it leads to its task. */
  class Process {
    const task: Task

    constructor (task: Task)
      ensures this.task == task
    {
      this.task := task;
    }
  }

  ghost function Ids(tasks: seq<Task>): (ids: seq<nat>)
    ensures |ids| == |tasks| && forall i | 0 <= i < |tasks| :: ids[i] == tasks[i].id
  {
    seq(|tasks|, i requires 0 <= i < |tasks| => tasks[i].id)
  }

  /** Tasks are numbered in the order of the list, below `created`. */
  ghost predicate Numbered(tasks: seq<Task>, created: nat) {
    && (forall i, j | 0 <= i < j < |tasks| :: tasks[i].id < tasks[j].id)
    && (forall i | 0 <= i < |tasks| :: tasks[i].id < created)
  }

  /** The scheduler that these objects represent. */
  ghost function Represented(tasks: seq<Task>, created: nat, current: Task?, process: Process?): Scheduler {
    Scheduler(Ids(tasks), created, if current == null then None else Some(current.id),
              if process == null then None else Some(process.task.id))
  }

  lemma CreatedIsStep(tasks: seq<Task>, created: nat, current: Task?, process: Process?, task: Task)
    requires Numbered(tasks, created) && task.id == created
    ensures Numbered(tasks + [task], created + 1)
    ensures Represented(tasks + [task], created + 1, current, process)
            == Step(Represented(tasks, created, current, process), Create)
  {
  }

  lemma SwitchedIsStep(tasks: seq<Task>, created: nat, current: Task?, process: Process?, p: Process)
    requires p.task in tasks
    ensures Represented(tasks, created, p.task, p)
            == Step(Represented(tasks, created, current, process), SwitchTo(p.task.id))
  {
    var k :| 0 <= k < |tasks| && tasks[k] == p.task;
    assert Ids(tasks)[k] == p.task.id;
  }

  /** The current task after task k is removed. */
  function CurrentWithout(tasks: seq<Task>, k: nat, current: Task?): Task?
    requires k < |tasks|
  {
    if current != tasks[k] then current
    else match Successor(|tasks|, k) case Some(j) => tasks[j] case None => null
  }

  /** When the current task is removed and others are left, the round goes on where it was: it starts at the
      new current task and has the others in the order in which they would have come. */
  lemma {:induction false} RoundGoesOn(tasks: seq<Task>, k: nat)
    requires k < |tasks| && |tasks| > 1 && Distinct(tasks)
    ensures var rest, next := Without(tasks, k), CurrentWithout(tasks, k, tasks[k]);
            exists j :: 0 <= j < |rest| && rest[j] == next && Rotation(rest, j) == Rotation(tasks, k)[1..]
    ensures forall current | current != tasks[k] :: CurrentWithout(tasks, k, current) == current
  {
    hide Without;
    RemoveCurrentIsOneTurn(tasks, k);
    var next := Successor(|tasks|, k).value;
    var j := if next > k then next - 1 else next;
    assert Rotation(Without(tasks, k), j) == Rotation(tasks, k)[1..];
  }

  lemma NumberedWithout(tasks: seq<Task>, created: nat, k: nat)
    requires Numbered(tasks, created) && k < |tasks|
    ensures Numbered(Without(tasks, k), created)
    ensures forall j | 0 <= j < |tasks| && tasks[j].id == tasks[k].id :: j == k
  {
    var w := Without(tasks, k);
    forall i, j | 0 <= i < j < |w|
      ensures w[i].id < w[j].id
    {
      var i', j' := if i < k then i else i + 1, if j < k then j else j + 1;
      assert w[i] == tasks[i'] && w[j] == tasks[j'] && i' < j';
    }
  }

  lemma CurrentStays(tasks: seq<Task>, k: nat, current: Task?)
    requires k < |tasks| && (current == null || current in tasks)
    requires forall j | 0 <= j < |tasks| && tasks[j] == tasks[k] :: j == k
    ensures var current' := CurrentWithout(tasks, k, current); current' == null || current' in Without(tasks, k)
  {
    hide Without;
    OthersStay(tasks, k);
  }

  lemma RemovedIsStep(tasks: seq<Task>, created: nat, current: Task?, process: Process?, k: nat)
    requires Numbered(tasks, created) && k < |tasks| && (current == null || current in tasks)
    ensures Numbered(Without(tasks, k), created)
    ensures var current' := CurrentWithout(tasks, k, current);
            && (current' == null || current' in Without(tasks, k))
            && Represented(Without(tasks, k), created, current', process)
               == Step(Represented(tasks, created, current, process), FreeTask(tasks[k].id))
  {
    hide IndexOf, Without, Numbered;
    NumberedWithout(tasks, created, k);
    CurrentStays(tasks, k, current);
    RemovedId(tasks, k) by { AreNumbered(tasks, created); }
    if current != null && current.id == tasks[k].id {
      var j :| 0 <= j < |tasks| && tasks[j] == current;
      assert j == k;
    }
  }

  lemma AreNumbered(tasks: seq<Task>, created: nat)
    requires Numbered(tasks, created)
    ensures forall i, j | 0 <= i < j < |tasks| :: tasks[i].id < tasks[j].id
  {
  }

  /** The list of tasks with the current task, and the current process, which is kept apart from it. */
  class List {
    var head: Task?
    var tail: Task?
    var current: Task?
    var process: Process?
    ghost var tasks: seq<Task>
    ghost var created: nat

    constructor ()
      ensures Valid() && tasks == [] && View() == IDLE
    {
      head, tail, current, process := null, null, null, null;
      tasks, created := [], 0;
    }

    /** The scheduler these objects represent. */
    ghost function View(): Scheduler
      reads this
    {
      Represented(tasks, created, current, process)
    }

    /** The links make one chain of exactly these tasks, in the order of creation, and the cursor is on one
        of them or nowhere. */
    ghost predicate Valid()
      reads this, tasks
    {
      Linked() && Numbered(tasks, created) && (current == null || current in tasks)
    }

    ghost predicate Linked()
      reads this, tasks
    {
      && Distinct(tasks)
      && head == (if |tasks| > 0 then tasks[0] else null)
      && tail == (if |tasks| > 0 then tasks[|tasks| - 1] else null)
      && (forall i {:trigger tasks[i].next} | 0 <= i < |tasks| ::
            tasks[i].next == if i + 1 < |tasks| then tasks[i + 1] else null)
      && (forall i {:trigger tasks[i].prev} | 0 <= i < |tasks| :: tasks[i].prev == if i > 0 then tasks[i - 1] else null)
    }

    /** The part of the creation that links the task behind the last one. */
    method Link(task: Task)
      requires Linked() && task !in tasks && task.prev == null && task.next == null
      modifies this, tasks, task
      ensures Linked() && tasks == old(tasks) + [task]
      ensures current == old(current) && process == old(process) && created == old(created)
    {
      if head == null {
        head, tail := task, task;
      } else {
        task.prev := tail;
        tail.next := task;
        tail := task;
      }
      tasks := tasks + [task];
    }

    method New() returns (task: Task)
      requires Valid()
      modifies this, tasks
      ensures Valid() && fresh(task)
      ensures tasks == old(tasks) + [task] && current == old(current) && process == old(process)
      ensures View() == Step(old(View()), Create)
    {
      hide Numbered, Represented, Step;
      task := new Task(created);
      CreatedIsStep(tasks, created, current, process, task);
      Link(task);
      created := created + 1;
    }

    method Switch(task: Task)
      requires Valid() && task in tasks
      modifies this
      ensures Valid() && tasks == old(tasks) && created == old(created) && process == old(process) && current == task
    {
      current := task;
    }

    /** Both cursors move. */
    method SwitchProcess(p: Process)
      requires Valid() && p.task in tasks
      modifies this
      ensures Valid() && tasks == old(tasks) && current == p.task && process == p
      ensures View() == Step(old(View()), SwitchTo(p.task.id))
    {
      hide Represented, Step;
      SwitchedIsStep(tasks, created, current, process, p);
      process := p;
      Switch(p.task);
    }

    /** The part of the removal that mends the links around the task. */
    method Unlink(task: Task, ghost k: nat)
      requires Linked() && k < |tasks| && tasks[k] == task
      modifies this, tasks
      ensures Linked() && tasks == Without(old(tasks), k)
      ensures current == old(current) && process == old(process) && created == old(created)
      ensures task.next == if k + 1 < |old(tasks)| then old(tasks)[k + 1] else null
    {
      ghost var was := tasks;
      var prev, next := task.prev, task.next;
      assert prev == (if k > 0 then was[k - 1] else null) && next == (if k + 1 < |was| then was[k + 1] else null);
      if prev != null {
        prev.next := next;
      }
      if next != null {
        next.prev := prev;
      }
      if head == task {
        head := next;
      }
      if tail == task {
        tail := prev;
      }
      tasks := Without(was, k);
    }

    /** Only the cursor of the list moves: the current process stays what it is. */
    method Remove(task: Task, ghost k: nat)
      requires Valid() && k < |tasks| && tasks[k] == task
      modifies this, tasks
      ensures Valid() && tasks == Without(old(tasks), k)
      ensures current == CurrentWithout(old(tasks), k, old(current)) && process == old(process)
      ensures View() == Step(old(View()), FreeTask(task.id))
    {
      hide Numbered, Represented, Step, Without;
      RemovedIsStep(tasks, created, current, process, k);
      Unlink(task, k);
      if current == task {
        HeadWithout(old(tasks), k);
        current := if task.next != null then task.next else head;
      }
    }
  }

  lemma HeadWithout(tasks: seq<Task>, k: nat)
    requires k < |tasks|
    ensures |tasks| > 1 ==> Without(tasks, k)[0] == if k == 0 then tasks[1] else tasks[0]
  {
  }

  /** Removing a task from the list removes its number from the numbers. */
  lemma RemovedId(tasks: seq<Task>, k: nat)
    requires k < |tasks| && forall i, j | 0 <= i < j < |tasks| :: tasks[i].id < tasks[j].id
    ensures IndexOf(Ids(tasks), tasks[k].id) == Some(k)
    ensures Ids(Without(tasks, k)) == Without(Ids(tasks), k)
  {
    var r := IndexOf(Ids(tasks), tasks[k].id);
    assert Ids(tasks)[k] == tasks[k].id;
    assert r.value == k by { assert !(r.value < k) && !(k < r.value); }
  }

  lemma OthersStay<T>(s: seq<T>, k: nat)
    requires k < |s|
    ensures forall x | x in s && x != s[k] :: x in Without(s, k)
  {
    forall x | x in s && x != s[k]
      ensures x in Without(s, k)
    {
      var i :| 0 <= i < |s| && s[i] == x;
      assert Without(s, k)[if i < k then i else i - 1] == x;
    }
  }

  // ----- runs

  function Run(s: Scheduler, ops: seq<Op>): Scheduler
    decreases |ops|
  {
    if ops == [] then s else Run(Step(s, ops[0]), ops[1..])
  }

  const IDLE: Scheduler := Scheduler([], 0, None, None)

  /** Tasks are in creation order, the current task is one of them, and both cursors agree exactly
      while the current process still has its task. */
  ghost predicate Ordered(s: Scheduler) {
    && (forall i, j | 0 <= i < j < |s.tasks| :: s.tasks[i] < s.tasks[j])
    && (forall i | 0 <= i < |s.tasks| :: s.tasks[i] < s.created)
    && (s.currentTask.Some? ==> s.currentTask.value in s.tasks)
    && (s.currentProcess.None? ==> s.currentTask.None?)
    && (s.currentProcess.Some? ==> s.currentProcess.value < s.created)
    && (s.currentProcess.Some? && s.currentProcess.value in s.tasks ==> s.currentTask == s.currentProcess)
  }

  lemma StepKeepsOrder(s: Scheduler, op: Op)
    requires Ordered(s)
    ensures Ordered(Step(s, op))
  {
    match op {
      case Create =>
      case SwitchTo(id) =>
      case FreeTask(id) =>
        var r := IndexOf(s.tasks, id);
        if r.Some? {
          FreeKeepsOrder(s, r.value);
        }
    }
  }

  lemma SortedWithout(s: seq<nat>, k: nat)
    requires k < |s| && forall i, j | 0 <= i < j < |s| :: s[i] < s[j]
    ensures var w := Without(s, k);
            && (forall i, j | 0 <= i < j < |w| :: w[i] < w[j])
            && s[k] !in w && (forall x | x in w :: x in s)
            && (forall x | x in s && x != s[k] :: x in w)
  {
    OthersStay(s, k);
  }

  lemma FreeKeepsOrder(s: Scheduler, k: nat)
    requires Ordered(s) && k < |s.tasks| && IndexOf(s.tasks, s.tasks[k]) == Some(k)
    ensures Ordered(Step(s, FreeTask(s.tasks[k])))
  {
    hide IndexOf, Without;
    SortedWithout(s.tasks, k);
    var w := Without(s.tasks, k);
    assert forall i | 0 <= i < |w| :: w[i] in w;
    if |s.tasks| > 1 {
      RemoveCurrentIsOneTurn(s.tasks, k);
      assert s.tasks[Successor(|s.tasks|, k).value] in w;
    }
  }

  /** In every state of every run: creation order, no task twice, the current task is a member, and
      pushes (to the current process) and pops (from the process of the current task) address the
      same keyboard buffer exactly while the current process has not been freed. */
  lemma {:induction false} RunsStayOrdered(s: Scheduler, ops: seq<Op>)
    requires Ordered(s)
    ensures Ordered(Run(s, ops))
    ensures var r := Run(s, ops);
            r.currentProcess.Some? ==> (r.currentTask == r.currentProcess <==> r.currentProcess.value in r.tasks)
    decreases |ops|
  {
    hide Step;
    if ops != [] {
      StepKeepsOrder(s, ops[0]);
      RunsStayOrdered(Step(s, ops[0]), ops[1..]);
    }
  }

  /** Freeing the task of the current process separates the two cursors. */
  lemma CursorsSeparate()
    ensures Ordered(IDLE)
    ensures var r := Run(IDLE, [Create, Create, SwitchTo(0), FreeTask(0)]);
            r.currentProcess == Some(0) && r.currentTask == Some(1)
  {
    var s1 := Step(IDLE, Create);
    var s2 := Step(s1, Create);
    assert s2.tasks == [0, 1];
    var s3 := Step(s2, SwitchTo(0));
    assert s3.tasks[..1] == [0];
    assert IndexOf(s3.tasks, 0) == Some(0);
    var s4 := Step(s3, FreeTask(0));
    assert Run(s4, []) == s4;
    assert [SwitchTo(0), FreeTask(0)][1..] == [FreeTask(0)];
    assert [Create, SwitchTo(0), FreeTask(0)][1..] == [SwitchTo(0), FreeTask(0)];
    assert [Create, Create, SwitchTo(0), FreeTask(0)][1..] == [Create, SwitchTo(0), FreeTask(0)];
    assert Run(s3, [FreeTask(0)]) == s4;
    assert Run(s2, [SwitchTo(0), FreeTask(0)]) == s4;
    assert Run(s1, [Create, SwitchTo(0), FreeTask(0)]) == s4;
  }
}
