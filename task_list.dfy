// The task dispatcher of stuff.c: a block of (operation, number) tasks applied in order to the
// shared sorted list, 'i' inserting, 'd' deleting and 'm' looking the number up.

module TaskList {
  import opened SortedIntList

  /** `struct task`: an operation letter and the number it acts on. */
  datatype Task = Task(operation: char, number: int)

  /** The list after one task. Lookups and unknown operations leave it as it was. */
  function ApplyTask(s: seq<int>, t: Task): seq<int>
  {
    if t.operation == 'i' then InsertSpec(s, t.number)
    else if t.operation == 'd' then DeleteSpec(s, t.number)
    else s
  }

  /** The list after the tasks, the first one applied first. */
  function ApplyTasks(s: seq<int>, tasks: seq<Task>): seq<int>
    decreases |tasks|
  {
    if |tasks| == 0 then s
    else ApplyTasks(ApplyTask(s, tasks[0]), tasks[1..])
  }

  /** What one task does to the set of values held: 'i' adds its number, 'd' removes it, any
      other letter changes nothing; the list stays strictly ascending. */
  lemma ApplyTaskEffect(s: seq<int>, t: Task)
    requires StrictlySorted(s)
    ensures StrictlySorted(ApplyTask(s, t))
    ensures t.operation == 'i' ==> forall x :: x in ApplyTask(s, t) <==> x in s || x == t.number
    ensures t.operation == 'd' ==> forall x :: x in ApplyTask(s, t) <==> x in s && x != t.number
    ensures t.operation != 'i' && t.operation != 'd' ==> ApplyTask(s, t) == s
  {
    var v := t.number;
    if t.operation == 'i' {
      InsertSpecCorrect(s, v);
      var r := InsertSpec(s, v);
      forall x
        ensures x in r <==> x in s || x == v
      {
        if v !in s {
          assert x in r <==> x in multiset(r);
          assert x in s <==> x in multiset(s);
        }
      }
    } else if t.operation == 'd' {
      DeleteSpecCorrect(s, v);
      var r := DeleteSpec(s, v);
      forall x
        ensures x in r <==> x in s && x != v
      {
        if v in s {
          assert x in r <==> x in multiset(r);
          assert x in s <==> x in multiset(s);
          assert multiset(s)[v] == 1 by {
            DistinctCount(s, v);
          }
        }
      }
    }
  }

  /** A strictly ascending list holds each value once. */
  lemma {:induction false} DistinctCount(s: seq<int>, v: int)
    requires StrictlySorted(s) && v in s
    ensures multiset(s)[v] == 1
    decreases |s|
  {
    assert s == [s[0]] + s[1..];
    if s[0] == v {
      assert v !in s[1..];
    } else {
      DistinctCount(s[1..], v);
    }
  }

  /** Applying any block of tasks to a strictly ascending list keeps it strictly ascending. */
  lemma {:induction false} ApplyTasksSorted(s: seq<int>, tasks: seq<Task>)
    requires StrictlySorted(s)
    ensures StrictlySorted(ApplyTasks(s, tasks))
    decreases |tasks|
  {
    if |tasks| > 0 {
      ApplyTaskEffect(s, tasks[0]);
      ApplyTasksSorted(ApplyTask(s, tasks[0]), tasks[1..]);
    }
  }

  /** A block of lookups only ('m' or any letter other than 'i' and 'd') leaves the list as it
      was. */
  lemma {:induction false} LookupsChangeNothing(s: seq<int>, tasks: seq<Task>)
    requires forall k :: 0 <= k < |tasks| ==> tasks[k].operation != 'i' && tasks[k].operation != 'd'
    ensures ApplyTasks(s, tasks) == s
    decreases |tasks|
  {
    if |tasks| > 0 {
      assert tasks[0].operation != 'i' && tasks[0].operation != 'd';
      LookupsChangeNothing(s, tasks[1..]);
    }
  }

  /** `ExecuteTasks`: the tasks are carried out in order on the list, each by the list operation
      its letter names. */
  method ExecuteTasks(list: SortedList, tasks: seq<Task>)
    requires list.Valid()
    modifies list.Repr
    ensures list.Valid() && fresh(list.Repr - old(list.Repr))
    ensures list.Contents == ApplyTasks(old(list.Contents), tasks)
  {
    var i := 0;
    while i < |tasks|
      invariant 0 <= i <= |tasks|
      invariant list.Valid() && fresh(list.Repr - old(list.Repr))
      invariant ApplyTasks(list.Contents, tasks[i..]) == ApplyTasks(old(list.Contents), tasks)
    {
      assert tasks[i..][1..] == tasks[i + 1..];
      ExecuteTask(list, tasks[i]);
      i := i + 1;
    }
  }

  /** One pass of the `ExecuteTasks` loop: the list operation the task's letter names. */
  method ExecuteTask(list: SortedList, t: Task)
    requires list.Valid()
    modifies list.Repr
    ensures list.Valid() && fresh(list.Repr - old(list.Repr))
    ensures list.Contents == ApplyTask(old(list.Contents), t)
  {
    if t.operation == 'i' {
      var _ := list.Insert(t.number);
    } else if t.operation == 'd' {
      var _ := list.Delete(t.number);
    } else if t.operation == 'm' {
      var _ := list.Member(t.number);
    }
  }
}
