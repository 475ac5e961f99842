/** Task ids of src/task.c: handed out, retired to a stack, and handed out again. */
module Tasks {
  import opened Bytes

  // ----- the ids alone -----

  /** The next unused id, the stack of retired ids and the ids of live tasks, newest first. */
  datatype Ids = Ids(next: int, stack: seq<nat>, live: seq<nat>)

  const INITIAL := Ids(1, [], [])

  /** new_task_id, and the new task at the head of the list. */
  function Make(s: Ids): Ids
    requires s.next > 0
  {
    if s.stack == [] then Ids(s.next + 1, [], [s.next] + s.live)
    else Ids(s.next, s.stack[..|s.stack| - 1], [s.stack[|s.stack| - 1]] + s.live)
  }

  /** retire_task_id: the newest id is given back by stepping the counter down. */
  function Retire(s: Ids, id: nat): Ids {
    if id == s.next - 1 then s.(next := s.next - 1) else s.(stack := s.stack + [id])
  }

  function Unlink(live: seq<nat>, id: nat): seq<nat> {
    if live == [] then [] else if live[0] == id then live[1..] else [live[0]] + Unlink(live[1..], id)
  }

  /** destroy_task_by_id. */
  function Destroy(s: Ids, id: nat): Ids {
    if id in s.live then Retire(s, id).(live := Unlink(s.live, id)) else s
  }

  predicate Distinct(s: seq<nat>) { forall i, j :: 0 <= i < j < |s| ==> s[i] != s[j] }

  /** Live and retired ids are disjoint, without duplicates, and together exactly 1 to next - 1. */
  ghost predicate Partitioned(s: Ids) {
    && s.next > 0 && Distinct(s.stack) && Distinct(s.live)
    && (forall k :: k in s.live ==> k !in s.stack)
    && (forall k :: k in s.live || k in s.stack <==> 1 <= k < s.next)
  }

  lemma MakeKeeps(s: Ids)
    requires Partitioned(s)
    ensures Partitioned(Make(s))
    ensures Make(s).live[0] !in s.live
  {
    if s.stack == [] {
      assert s.next !in s.live;
    } else {
      var n := |s.stack| - 1;
      var top := s.stack[n];
      assert top in s.stack;
      assert s.stack == s.stack[..n] + [top];
      forall k
        ensures k in s.stack <==> k in s.stack[..n] || k == top
      {
      }
      assert top !in s.stack[..n];
    }
  }

  lemma {:induction false} UnlinkIs(live: seq<nat>, id: nat)
    requires Distinct(live)
    ensures Distinct(Unlink(live, id)) && forall k :: k in Unlink(live, id) <==> k in live && k != id
  {
    if live != [] {
      var h, rest := live[0], live[1..];
      UnlinkIs(rest, id);
      assert forall k :: k in live <==> k == h || k in rest;
      assert h !in rest;
      var u := Unlink(rest, id);
      assert forall i :: 0 <= i < |u| ==> u[i] in u;
      assert forall k :: k in [h] + u <==> k == h || k in u;
    }
  }

  lemma PushDistinct(stack: seq<nat>, id: nat)
    requires Distinct(stack) && id !in stack
    ensures Distinct(stack + [id])
  {
    forall i | 0 <= i < |stack|
      ensures stack[i] != id
    {
      assert stack[i] in stack;
    }
  }

  lemma DestroyKeeps(s: Ids, id: nat)
    requires Partitioned(s)
    ensures Partitioned(Destroy(s, id)) && id !in Destroy(s, id).live
  {
    if id in s.live {
      UnlinkIs(s.live, id);
      PushDistinct(s.stack, id);
      assert forall k :: k in s.stack + [id] <==> k in s.stack || k == id;
    }
  }

  datatype Event = Created | Destroyed(id: nat)

  /** After any sequence of creations and destructions the ids are partitioned. */
  function Run(es: seq<Event>): (s: Ids)
    ensures Partitioned(s)
  {
    if es == [] then INITIAL
    else
      var s := Run(es[..|es| - 1]);
      match es[|es| - 1]
      case Created => MakeKeeps(s); Make(s)
      case Destroyed(id) => DestroyKeeps(s, id); Destroy(s, id)
  }

  // ----- ids are used again -----

  lemma {:induction false} CountsUp(s: seq<nat>, n: nat)
    requires Distinct(s) && forall k :: k in s <==> 1 <= k <= n
    ensures |s| == n
    decreases n
  {
    if n == 0 {
      SomeIn(s);
    } else {
      assert n in s;
      UnlinkIs(s, n);
      UnlinkShorter(s, n);
      CountsUp(Unlink(s, n), n - 1);
    }
  }

  lemma SomeIn(s: seq<nat>)
    ensures s != [] ==> exists k :: k in s
  {
    if s != [] {
      assert s[0] in s;
    }
  }

  lemma {:induction false} UnlinkShorter(s: seq<nat>, id: nat)
    requires id in s
    ensures |Unlink(s, id)| == |s| - 1
  {
    if s[0] != id {
      assert id in s[1..];
      UnlinkShorter(s[1..], id);
    }
  }

  /** The greatest number of tasks that were ever alive at once. */
  ghost function Peak(es: seq<Event>): nat {
    var now := |Run(es).live|;
    if es == [] then now
    else
      var before := Peak(es[..|es| - 1]);
      if now > before then now else before
  }

  /** No id is greater than the greatest number of tasks that were ever alive at once. */
  lemma {:induction false} IdsStayLow(es: seq<Event>)
    ensures Run(es).next - 1 <= Peak(es)
    ensures forall id <- Run(es).live :: 1 <= id <= Peak(es)
  {
    hide Partitioned;
    if es != [] {
      var before := Run(es[..|es| - 1]);
      IdsStayLow(es[..|es| - 1]);
      if es[|es| - 1].Created? && before.stack == [] {
        AllLive(before);
      }
    }
    LiveBelow(Run(es));
  }

  /** With nothing retired, the live ids are all there are. */
  lemma AllLive(s: Ids)
    requires Partitioned(s) && s.stack == []
    ensures |s.live| == s.next - 1
  {
    CountsUp(s.live, s.next - 1);
  }

  lemma LiveBelow(s: Ids)
    requires Partitioned(s)
    ensures forall id <- s.live :: 1 <= id < s.next
  {
  }

  /**
   * The id of a task that is destroyed goes to the next one that is made, if and only if it is not the
   * greatest id ever given out or no other id is waiting to be used again.
   */
  lemma RetiredIsReused(s: Ids, id: nat)
    requires Partitioned(s) && id in s.live
    ensures Destroy(s, id).next > 0
    ensures Make(Destroy(s, id)).live[0] == id <==> id != s.next - 1 || s.stack == []
  {
    if id == s.next - 1 && s.stack != [] {
      assert s.stack[|s.stack| - 1] in s.stack;
    }
  }

  // ----- live tasks -----

  class Task {
    const id: nat
    const itemName: Text
    const interval: nat

    constructor (id: nat, itemName: Text, interval: nat)
      ensures this.id == id && this.itemName == itemName && this.interval == interval
    {
      this.id, this.itemName, this.interval := id, itemName, interval;
    }
  }

  function IdsOf(tasks: seq<Task>): (r: seq<nat>)
    ensures |r| == |tasks|
  {
    seq(|tasks|, i requires 0 <= i < |tasks| => tasks[i].id)
  }

  class TaskTable {
    var nextTaskId: nat
    var idStack: seq<nat>
    var taskList: seq<Task>

    ghost function Abs(): Ids
      reads this
    {
      Ids(nextTaskId, idStack, IdsOf(taskList))
    }

    ghost predicate Valid()
      reads this
    {
      Partitioned(Abs())
    }

    /** init_tasks. */
    constructor ()
      ensures Valid() && Abs() == INITIAL
    {
      nextTaskId, idStack, taskList := 1, [], [];
    }

    method NewTaskId() returns (id: nat)
      requires nextTaskId > 0
      modifies `nextTaskId, `idStack
      ensures Abs() == Make(old(Abs())).(live := old(Abs()).live) && id == Make(old(Abs())).live[0]
    {
      if |idStack| == 0 {
        id := nextTaskId;
        nextTaskId := nextTaskId + 1;
      } else {
        id := idStack[|idStack| - 1];
        idStack := idStack[..|idStack| - 1];
      }
    }

    method RetireTaskId(id: nat)
      requires nextTaskId > 0
      modifies `nextTaskId, `idStack
      ensures Abs() == Retire(old(Abs()), id)
    {
      if id == nextTaskId - 1 {
        nextTaskId := nextTaskId - 1;
        return;
      }
      idStack := idStack + [id];
    }

    /** make_task: the id is new among the live tasks. */
    method MakeTask(itemName: Text, interval: nat) returns (task: Task)
      requires Valid()
      modifies this
      ensures Valid() && Abs() == Make(old(Abs())) && taskList == [task] + old(taskList)
      ensures task.itemName == itemName && task.interval == interval && task.id !in IdsOf(old(taskList))
    {
      MakeKeeps(Abs());
      var id := NewTaskId();
      task := new Task(id, itemName, interval);
      taskList := [task] + taskList;
      assert IdsOf(taskList) == [id] + IdsOf(old(taskList));
    }

    /** destroy_task: the id is retired and the node unlinked. */
    method DestroyTask(task: Task)
      requires Valid() && task in taskList
      modifies this
      ensures Valid() && Abs() == Destroy(old(Abs()), task.id)
      ensures task !in taskList && forall t :: t in taskList ==> t in old(taskList)
    {
      DestroyKeeps(Abs(), task.id);
      ghost var was := taskList;
      var i := 0;
      while taskList[i] != task
        invariant i < |taskList| && task !in taskList[..i] && taskList == was && Abs() == old(Abs())
        decreases |taskList| - i
      {
        i := i + 1;
      }
      UnlinkTask(taskList, i);
      assert IdsOf(taskList)[i] == task.id;
      RetireTaskId(task.id);
      taskList := taskList[..i] + taskList[i + 1..];
    }

    /** find_task_by_id: the one live task with the id, or none. */
    method FindTaskById(id: nat) returns (task: Task?)
      requires Valid()
      ensures task == null <==> id !in IdsOf(taskList)
      ensures task != null ==>
                task in taskList && task.id == id && forall t :: t in taskList && t.id == id ==> t == task
    {
      for i := 0 to |taskList|
        invariant forall j :: 0 <= j < i ==> taskList[j].id != id
      {
        if taskList[i].id == id {
          assert IdsOf(taskList)[i] == id;
          forall j | 0 <= j < |taskList| && taskList[j].id == id
            ensures j == i
          {
            assert IdsOf(taskList)[j] == id;
          }
          return taskList[i];
        }
      }
      return null;
    }

    /** destroy_task_by_id. */
    method DestroyTaskById(id: nat)
      requires Valid()
      modifies this
      ensures Valid() && Abs() == Destroy(old(Abs()), id)
    {
      var task := FindTaskById(id);
      if task != null {
        DestroyTask(task);
      }
    }
  }

  lemma {:induction false} UnlinkTask(tasks: seq<Task>, i: nat)
    requires i < |tasks| && Distinct(IdsOf(tasks))
    ensures Unlink(IdsOf(tasks), tasks[i].id) == IdsOf(tasks[..i] + tasks[i + 1..])
    ensures tasks[i] !in tasks[..i] + tasks[i + 1..]
  {
    var ids, rest := IdsOf(tasks), tasks[..i] + tasks[i + 1..];
    assert forall j :: 0 <= j < |tasks| ==> tasks[j].id == ids[j];
    assert forall j :: 0 <= j < |rest| ==> rest[j] == tasks[if j < i then j else j + 1];
    UnlinkAt(ids, i);
    assert IdsOf(rest) == ids[..i] + ids[i + 1..];
  }

  lemma {:induction false} UnlinkAt(ids: seq<nat>, i: nat)
    requires i < |ids| && Distinct(ids)
    ensures Unlink(ids, ids[i]) == ids[..i] + ids[i + 1..]
  {
    if i > 0 {
      assert ids[0] != ids[i] && ids[1..][i - 1] == ids[i];
      UnlinkAt(ids[1..], i - 1);
      assert ids[..i] == [ids[0]] + ids[1..][..i - 1];
    }
  }
}
