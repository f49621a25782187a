/** A task with its children, as the kernel's sibling lists link them. */
module TaskTree {
  datatype Task = Task(pid: int, comm: string, children: seq<Task>)

  /** `p` holds of the task and of everything below it. */
  ghost predicate Everywhere(t: Task, p: Task -> bool)
    decreases t, 1
  {
    p(t) && EverywhereIn(t.children, p)
  }

  ghost predicate EverywhereIn(ts: seq<Task>, p: Task -> bool)
    decreases ts, 0
  {
    ts == [] || (Everywhere(ts[0], p) && EverywhereIn(ts[1..], p))
  }
}
