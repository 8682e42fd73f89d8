/** The preemptive scheduler: a circular doubly linked ring of tasks (kernel/scheduler.c, and the SYS_EXIT and
    SYS_YIELD cases of kernel/isr.c). */
module Scheduler {

  type Addr = nat

  /** A saved register frame: a plain token. */
  type Frame = int

  const MAX_TASKS: nat := 64

  datatype TaskState = Ready | Running | Waiting | Blocked | Zombie

  datatype Task = Task(id: nat, state: TaskState, ticks: nat, frame: Frame, stack: Addr, next: Addr, prev: Addr)

  /** The task structures in memory, by address. */
  type Tasks = map<Addr, Task>

  // ---------------------------------------------------------------- the ring

  function After(ring: seq<Addr>, i: nat): Addr
    requires i < |ring|
  {
    if i + 1 < |ring| then ring[i + 1] else ring[0]
  }

  function Before(ring: seq<Addr>, i: nat): Addr
    requires i < |ring|
  {
    if i > 0 then ring[i - 1] else ring[|ring| - 1]
  }

  ghost predicate LinkedAt(tasks: Tasks, ring: seq<Addr>, i: nat)
    requires i < |ring|
  {
    ring[i] in tasks && tasks[ring[i]].next == After(ring, i) && tasks[ring[i]].prev == Before(ring, i)
  }

  ghost predicate Distinct(ring: seq<Addr>)
  {
    forall i, j :: 0 <= i < j < |ring| ==> ring[i] != ring[j]
  }

  /** The tasks form one cycle, with next and prev inverse, through exactly the task structures in memory. */
  ghost predicate Ring(tasks: Tasks, ring: seq<Addr>)
  {
    && 1 <= |ring| && Distinct(ring)
    && (forall i: nat :: i < |ring| ==> LinkedAt(tasks, ring, i))
    && (forall t :: t in tasks ==> t in ring)
  }

  function Without(ring: seq<Addr>, j: nat): (r: seq<Addr>)
    requires j < |ring|
    ensures |r| == |ring| - 1
    ensures forall k :: 0 <= k < j ==> r[k] == ring[k]
    ensures forall k :: j <= k < |r| ==> r[k] == ring[k + 1]
  {
    ring[..j] + ring[j + 1..]
  }

  /** Unlinking t: what the two assignments of the reaper do to its neighbours, and t's structure is gone. */
  function Unlinked(tasks: Tasks, t: Addr): Tasks
    requires t in tasks && tasks[t].prev in tasks && tasks[t].next in tasks
  {
    var p, n := tasks[t].prev, tasks[t].next;
    var a := tasks[p := tasks[p].(next := n)];
    a[n := a[n].(prev := p)] - {t}
  }

  lemma UnlinkedAt(tasks: Tasks, ring: seq<Addr>, j: nat, k: nat)
    requires Ring(tasks, ring) && 0 < j < |ring| && k < |ring| && k != j
    ensures LinkedAt(tasks, ring, j) && Before(ring, j) in tasks && After(ring, j) in tasks
    ensures ring[k] in Unlinked(tasks, ring[j])
    ensures var u := Unlinked(tasks, ring[j])[ring[k]];
            u == tasks[ring[k]].(next := if ring[k] == Before(ring, j) then After(ring, j) else tasks[ring[k]].next,
                                 prev := if ring[k] == After(ring, j) then Before(ring, j) else tasks[ring[k]].prev)
  {
    assert LinkedAt(tasks, ring, j) && LinkedAt(tasks, ring, k);
    assert LinkedAt(tasks, ring, j - 1);
    assert LinkedAt(tasks, ring, if j + 1 < |ring| then j + 1 else 0);
  }

  /** Removing a task other than the first leaves a ring. */
  lemma RingWithout(tasks: Tasks, ring: seq<Addr>, j: nat)
    requires Ring(tasks, ring) && 0 < j < |ring|
    ensures LinkedAt(tasks, ring, j) && Before(ring, j) in tasks && After(ring, j) in tasks
    ensures Ring(Unlinked(tasks, ring[j]), Without(ring, j))
  {
    UnlinkedAt(tasks, ring, j, 0);
    var tasks', ring' := Unlinked(tasks, ring[j]), Without(ring, j);
    forall k: nat | k < |ring'| ensures LinkedAt(tasks', ring', k) {
      WithoutLinkedAt(tasks, ring, j, k);
    }
    forall t | t in tasks' ensures t in ring' {
      var k :| 0 <= k < |ring| && ring[k] == t;
      assert ring'[if k < j then k else k - 1] == t;
    }
  }

  lemma WithoutLinkedAt(tasks: Tasks, ring: seq<Addr>, j: nat, k: nat)
    requires Ring(tasks, ring) && 0 < j < |ring| && k < |ring| - 1
    requires LinkedAt(tasks, ring, j) && Before(ring, j) in tasks && After(ring, j) in tasks
    ensures LinkedAt(Unlinked(tasks, ring[j]), Without(ring, j), k)
  {
    hide Unlinked;
    var i := if k < j then k else k + 1;
    UnlinkedAt(tasks, ring, j, i);
    assert LinkedAt(tasks, ring, i);
  }

  /** Linking t in just before the head: the four assignments of task_create. */
  function LinkedIn(tasks: Tasks, head: Addr, t: Addr, body: Task): Tasks
    requires head in tasks && tasks[head].prev in tasks && t !in tasks
  {
    var last := tasks[head].prev;
    var a := tasks[t := body.(next := head, prev := last)];
    var b := a[last := a[last].(next := t)];
    b[head := b[head].(prev := t)]
  }

  lemma LinkedInAt(tasks: Tasks, ring: seq<Addr>, t: Addr, body: Task, k: nat)
    requires Ring(tasks, ring) && t !in tasks && k < |ring|
    ensures LinkedAt(tasks, ring, 0) && tasks[ring[0]].prev == ring[|ring| - 1] && ring[|ring| - 1] in tasks
    ensures LinkedAt(tasks, ring, k)
    ensures var u := LinkedIn(tasks, ring[0], t, body);
            && t in u && u[t] == body.(next := ring[0], prev := ring[|ring| - 1])
            && ring[k] in u
            && u[ring[k]] == tasks[ring[k]].(next := if k == |ring| - 1 then t else tasks[ring[k]].next,
                                             prev := if k == 0 then t else tasks[ring[k]].prev)
  {
    assert LinkedAt(tasks, ring, 0) && LinkedAt(tasks, ring, k) && LinkedAt(tasks, ring, |ring| - 1);
  }

  /** Appending a new task leaves a ring. */
  lemma RingExtended(tasks: Tasks, ring: seq<Addr>, t: Addr, body: Task)
    requires Ring(tasks, ring) && t !in tasks
    ensures ring[0] in tasks && tasks[ring[0]].prev in tasks
    ensures Ring(LinkedIn(tasks, ring[0], t, body), ring + [t])
  {
    LinkedInAt(tasks, ring, t, body, 0);
    var tasks', ring' := LinkedIn(tasks, ring[0], t, body), ring + [t];
    forall k: nat | k < |ring'| ensures LinkedAt(tasks', ring', k) {
      if k < |ring| {
        LinkedInAt(tasks, ring, t, body, k);
        assert LinkedAt(tasks, ring, k);
      }
    }
    assert forall k :: 0 <= k < |ring| ==> ring[k] in tasks by {
      forall k: nat | k < |ring| ensures ring[k] in tasks { assert LinkedAt(tasks, ring, k); }
    }
    forall x | x in tasks' ensures x in ring' {
      if x != t {
        var k :| 0 <= k < |ring| && ring[k] == x;
        assert ring'[k] == x;
      }
    }
  }

  // ---------------------------------------------------------------- frames

  /** A frame was saved for task pid: at its creation or when it was suspended. */
  datatype Saved = Saved(pid: nat, frame: Frame)

  /** The frame most recently saved for pid. */
  function LastFrame(history: seq<Saved>, pid: nat): Frame
  {
    if history == [] then 0
    else if history[|history| - 1].pid == pid then history[|history| - 1].frame
    else LastFrame(history[..|history| - 1], pid)
  }

  lemma LastFrameNext(history: seq<Saved>, e: Saved, pid: nat)
    ensures LastFrame(history + [e], pid) == if e.pid == pid then e.frame else LastFrame(history, pid)
  {
    assert (history + [e])[..|history|] == history;
  }

  // ---------------------------------------------------------------- what is true of the tasks

  /** Ghost bookkeeping: the task of each process id, the task that owns each stack, the frames saved so far. */
  datatype Ledger = Ledger(byPid: map<nat, Addr>, stackOwner: map<Addr, Addr>, history: seq<Saved>)

  /** Task t: its process id is its own, its frame is the one last saved, it owns its block and its stack. */
  ghost predicate TaskOk(tasks: Tasks, t: Addr, kernel: Addr, current: Addr, nextPid: nat, heap: set<Addr>, g: Ledger)
    requires t in tasks
  {
    var k := tasks[t];
    && k.id < nextPid && k.id in g.byPid && g.byPid[k.id] == t
    && k.frame == LastFrame(g.history, k.id)
    && (if t == current then k.state == Running || k.state == Zombie else k.state == Ready || k.state == Zombie)
    && (if t == kernel then k.id == 0 && k.stack == 0 && k.state != Zombie
        else t != 0 && t in heap && k.stack != 0 && k.stack in heap && k.stack !in tasks
             && k.stack in g.stackOwner && g.stackOwner[k.stack] == t)
  }

  /** A block of the heap that the scheduler holds is a task other than the kernel's, or such a task's stack. */
  ghost predicate Accounted(tasks: Tasks, kernel: Addr, a: Addr, g: Ledger)
  {
    || (a in tasks && a != kernel)
    || (a in g.stackOwner && g.stackOwner[a] in tasks && g.stackOwner[a] != kernel && tasks[g.stackOwner[a]].stack == a)
  }

  ghost predicate Sound(tasks: Tasks, kernel: Addr, current: Addr, nextPid: nat, heap: set<Addr>, g: Ledger)
  {
    && kernel in tasks && current in tasks && kernel !in heap
    && (forall t :: t in tasks ==> TaskOk(tasks, t, kernel, current, nextPid, heap, g))
    && (forall a :: a in heap ==> Accounted(tasks, kernel, a, g))
  }

  /** Everything but the links. */
  function Body(t: Task): Task { t.(next := 0, prev := 0) }

  /** No task is new, and each still there has the process id and the time it had. */
  ghost predicate SameTimes(before: Tasks, after: Tasks)
  {
    forall t :: t in after ==> t in before && after[t].id == before[t].id && after[t].ticks == before[t].ticks
  }

  /** No task is new, each still there has its process id, and the time of exactly one has gone up by a tick. */
  ghost predicate Charged(before: Tasks, after: Tasks, to: Addr)
  {
    forall t :: t in after ==>
      && t in before && after[t].id == before[t].id
      && after[t].ticks == before[t].ticks + if t == to then 1 else 0
  }

  lemma TimeCharged(before: Tasks, charged: Tasks, after: Tasks, t: Addr)
    requires t in before && charged == before[t := before[t].(ticks := before[t].ticks + 1)]
    requires SameTimes(charged, after)
    ensures Charged(before, after, t)
  {
  }

  lemma SameTimesChain(a: Tasks, b: Tasks, c: Tasks)
    requires SameTimes(a, b) && SameTimes(b, c)
    ensures SameTimes(a, c)
  {
  }

  lemma BodiesHaveTimes(before: Tasks, after: Tasks)
    requires SameBodies(before, after)
    ensures SameTimes(before, after)
  {
    forall t | t in after ensures t in before && after[t].id == before[t].id && after[t].ticks == before[t].ticks {
      assert Body(after[t]) == Body(before[t]);
      assert Body(after[t]).ticks == after[t].ticks && Body(before[t]).ticks == before[t].ticks;
      assert Body(after[t]).id == after[t].id && Body(before[t]).id == before[t].id;
    }
  }

  ghost predicate SameBodies(tasks: Tasks, tasks': Tasks)
  {
    forall t :: t in tasks' ==> t in tasks && Body(tasks'[t]) == Body(tasks[t])
  }

  lemma UnlinkedBodies(tasks: Tasks, ring: seq<Addr>, j: nat)
    requires Ring(tasks, ring) && 0 < j < |ring|
    ensures LinkedAt(tasks, ring, j) && Before(ring, j) in tasks && After(ring, j) in tasks
    ensures SameBodies(tasks, Unlinked(tasks, ring[j])) && Unlinked(tasks, ring[j]).Keys == tasks.Keys - {ring[j]}
  {
    UnlinkedAt(tasks, ring, j, 0);
  }

  /** Reaping zombie t, which is not the current task: its two blocks were held and are given back, once. */
  lemma ReapedSound(tasks: Tasks, tasks': Tasks, t: Addr, kernel: Addr, current: Addr, nextPid: nat, heap: set<Addr>,
      g: Ledger)
    requires Sound(tasks, kernel, current, nextPid, heap, g)
    requires t in tasks && t != current && tasks[t].state == Zombie
    requires SameBodies(tasks, tasks') && tasks'.Keys == tasks.Keys - {t}
    ensures t in heap && tasks[t].stack in heap && t != tasks[t].stack
    ensures Sound(tasks', kernel, current, nextPid, heap - {tasks[t].stack} - {t}, g)
  {
    var heap' := heap - {tasks[t].stack} - {t};
    assert TaskOk(tasks, t, kernel, current, nextPid, heap, g) &&
           TaskOk(tasks, kernel, kernel, current, nextPid, heap, g);
    forall x | x in tasks' ensures TaskOk(tasks', x, kernel, current, nextPid, heap', g) {
      assert TaskOk(tasks, x, kernel, current, nextPid, heap, g);
    }
    forall a | a in heap' ensures Accounted(tasks', kernel, a, g) {
      assert Accounted(tasks, kernel, a, g);
    }
  }

  // ---------------------------------------------------------------- rotations

  /** The place of t in the ring. */
  ghost function IndexIn(ring: seq<Addr>, t: Addr): (i: nat)
    requires t in ring
    ensures i < |ring| && ring[i] == t
  {
    var i :| 0 <= i < |ring| && ring[i] == t;
    i
  }

  /** The other tasks in the order the ring visits them after t. */
  ghost function Rest(ring: seq<Addr>, t: Addr): (r: seq<Addr>)
    requires t in ring
    ensures |r| == |ring| - 1
  {
    var i := IndexIn(ring, t);
    ring[i + 1..] + ring[..i]
  }

  lemma RestAt(ring: seq<Addr>, i: nat)
    requires Distinct(ring) && i < |ring|
    ensures Rest(ring, ring[i]) == ring[i + 1..] + ring[..i]
  {
    var j := IndexIn(ring, ring[i]);
    assert i == j;
  }

  /** Following next pointers from t visits Rest in order and comes back to t. */
  lemma WalkNext(tasks: Tasks, ring: seq<Addr>, t: Addr, k: nat)
    requires Ring(tasks, ring) && t in ring && k < |ring|
    ensures var r := Rest(ring, t);
            var x := if k == 0 then t else r[k - 1];
            x in tasks && tasks[x].next in tasks && tasks[x].next == if k < |r| then r[k] else t
  {
    var i := IndexIn(ring, t);
    var j := if i + k < |ring| then i + k else i + k - |ring|;
    assert LinkedAt(tasks, ring, j);
    assert LinkedAt(tasks, ring, if j + 1 < |ring| then j + 1 else 0);
    RestAt(ring, i);
  }

  /** The tasks of s that are not dead, in order. */
  ghost function Kept(s: seq<Addr>, dead: set<Addr>): seq<Addr>
  {
    if s == [] then [] else Kept(s[..|s| - 1], dead) + if s[|s| - 1] in dead then [] else [s[|s| - 1]]
  }

  lemma {:induction false} KeptConcat(a: seq<Addr>, b: seq<Addr>, dead: set<Addr>)
    ensures Kept(a + b, dead) == Kept(a, dead) + Kept(b, dead)
  {
    if b == [] {
      assert a + b == a;
    } else {
      var n := |b| - 1;
      assert (a + b)[..|a + b| - 1] == a + b[..n];
      KeptConcat(a, b[..n], dead);
    }
  }

  lemma {:induction false} KeptMembers(s: seq<Addr>, dead: set<Addr>)
    ensures forall x :: x in Kept(s, dead) <==> x in s && x !in dead
  {
    if s != [] {
      var n := |s| - 1;
      KeptMembers(s[..n], dead);
      assert s == s[..n] + [s[n]];
    }
  }

  /** Reaping commutes with rotating to the current task. */
  lemma RestKept(ring: seq<Addr>, t: Addr, dead: set<Addr>)
    requires t in ring && t !in dead && Distinct(Kept(ring, dead))
    ensures t in Kept(ring, dead) && Rest(Kept(ring, dead), t) == Kept(Rest(ring, t), dead)
  {
    var i := IndexIn(ring, t);
    var a, b := ring[..i], ring[i + 1..];
    assert ring == a + [t] + b;
    KeptConcat(a + [t], b, dead);
    KeptConcat(a, [t], dead);
    assert Kept([t], dead) == [t] by { assert [t][..0] == []; }
    KeptConcat(b, a, dead);
    var ka, kept := Kept(a, dead), Kept(ring, dead);
    assert kept[|ka|] == t;
    RestAt(kept, |ka|);
    assert kept[|ka| + 1..] == Kept(b, dead) && kept[..|ka|] == ka;
  }

  /** Where the rotation stands after the task at place k of the rest becomes current. */
  lemma RestMoved(ring: seq<Addr>, t: Addr, k: nat)
    requires Distinct(ring) && t in ring && k < |ring| - 1
    ensures var r := Rest(ring, t);
            r[k] in ring && Rest(ring, r[k]) == r[k + 1..] + [t] + r[..k]
  {
    hide Rest;
    var i := IndexIn(ring, t);
    RestAt(ring, i);
    var a, b := ring[..i], ring[i + 1..];
    var r := b + a;
    if k < |b| {
      RestAt(ring, i + 1 + k);
      assert ring[i + 1 + k] == r[k];
      assert ring[i + 2 + k..] + ring[..i + 1 + k] == r[k + 1..] + [t] + r[..k];
    } else {
      RestAt(ring, k - |b|);
      assert ring[k - |b|] == r[k];
      assert ring[k - |b| + 1..] + ring[..k - |b|] == r[k + 1..] + [t] + r[..k];
    }
  }

  ghost predicate SameLinks(tasks: Tasks, tasks': Tasks)
  {
    tasks'.Keys == tasks.Keys && forall t :: t in tasks ==>
      tasks'[t].next == tasks[t].next && tasks'[t].prev == tasks[t].prev
  }

  lemma RingSameLinks(tasks: Tasks, tasks': Tasks, ring: seq<Addr>)
    requires Ring(tasks, ring) && SameLinks(tasks, tasks')
    ensures Ring(tasks', ring)
  {
    forall i: nat | i < |ring| ensures LinkedAt(tasks', ring, i) {
      assert LinkedAt(tasks, ring, i);
    }
  }

  /** The zombies among the tasks, the current one aside. */
  ghost function Dead(tasks: Tasks, current: Addr): set<Addr>
  {
    set t | t in tasks && tasks[t].state == Zombie && t != current
  }

  lemma RingStart(tasks: Tasks, ring: seq<Addr>)
    requires Ring(tasks, ring)
    ensures 1 <= |ring| && LinkedAt(tasks, ring, 0) && forall i :: 0 < i < |ring| ==> ring[i] != ring[0]
  {
    assert LinkedAt(tasks, ring, 0);
  }

  lemma LinkAt(tasks: Tasks, ring: seq<Addr>, i: nat)
    requires Ring(tasks, ring) && i < |ring|
    ensures LinkedAt(tasks, ring, i)
  {
  }

  lemma DeadOnRing(tasks: Tasks, ring: seq<Addr>, current: Addr)
    requires Ring(tasks, ring)
    ensures forall t :: t in Dead(tasks, current) ==> t in ring
  {
  }

  lemma {:induction false} KeptShorter(s: seq<Addr>, dead: set<Addr>)
    ensures |Kept(s, dead)| <= |s|
  {
    if s != [] { KeptShorter(s[..|s| - 1], dead); }
  }

  lemma KeptKernel(tasks: Tasks, ring: seq<Addr>, kernel: Addr, current: Addr, nextPid: nat, heap: set<Addr>, g: Ledger)
    requires Ring(tasks, ring) && ring[0] == kernel && Sound(tasks, kernel, current, nextPid, heap, g)
    ensures kernel !in Dead(tasks, current) && Kept(ring[..1], Dead(tasks, current)) == [kernel]
    ensures ring[..1] + ring[1..] == ring
  {
    assert TaskOk(tasks, kernel, kernel, current, nextPid, heap, g);
    assert ring[..1] == [kernel] && [kernel][..0] == [];
  }

  lemma KeptNext(ring: seq<Addr>, m: nat, dead: set<Addr>)
    requires m < |ring|
    ensures Kept(ring[..m + 1], dead) == Kept(ring[..m], dead) + if ring[m] in dead then [] else [ring[m]]
    ensures ring[m..] == [ring[m]] + ring[m + 1..]
    ensures ring[..m + 1] == ring[..m] + [ring[m]]
  {
    assert ring[..m + 1][..m] == ring[..m];
  }

  lemma UnlinkedInSteps(tasks: Tasks, t: Addr, tasks': Tasks)
    requires t in tasks && tasks[t].prev in tasks && tasks[t].next in tasks
    requires var p, n := tasks[t].prev, tasks[t].next;
             var a := tasks[p := tasks[p].(next := n)];
             tasks' == a[n := a[n].(prev := p)] - {t}
    ensures tasks' == Unlinked(tasks, t)
  {
  }

  lemma StackHeld(tasks: Tasks, t: Addr, kernel: Addr, current: Addr, nextPid: nat, heap: set<Addr>, g: Ledger)
    requires Sound(tasks, kernel, current, nextPid, heap, g) && t in tasks && tasks[t].state == Zombie
    ensures tasks[t].stack != 0 && t != kernel
  {
    assert TaskOk(tasks, t, kernel, current, nextPid, heap, g);
  }

  // ---------------------------------------------------------------- what scheduling means

  /** The current task, the others in ring order after it, and every task's state. */
  datatype View = View(cur: Addr, rest: seq<Addr>, states: map<Addr, TaskState>)

  predicate Runnable(s: TaskState) { s == Ready || s == Running }

  /** Index of the first runnable task, or the length when there is none. */
  ghost function FirstRunnable(r: seq<Addr>, states: map<Addr, TaskState>): (k: nat)
    ensures k <= |r|
    ensures forall j :: 0 <= j < k ==> r[j] in states ==> !Runnable(states[r[j]])
    ensures k < |r| ==> r[k] in states && Runnable(states[r[k]])
  {
    if r == [] || (r[0] in states && Runnable(states[r[0]])) then 0 else 1 + FirstRunnable(r[1..], states)
  }

  /** The zombies that a call may reap: all but the current task. */
  ghost function Reapable(v: View): set<Addr>
  {
    set t | t in v.states && v.states[t] == Zombie && t != v.cur
  }

  ghost function Reaped(v: View): View
  {
    View(v.cur, Kept(v.rest, Reapable(v)), v.states - Reapable(v))
  }

  /** Switching to place k of the rest: the old current task, if it was running, becomes ready and goes last. */
  ghost function Switched(v: View, k: nat): View
    requires k < |v.rest|
  {
    var t := v.rest[k];
    var before := if v.cur in v.states && v.states[v.cur] == Running then v.states[v.cur := Ready] else v.states;
    View(t, v.rest[k + 1..] + [v.cur] + v.rest[..k], before[t := Running])
  }

  /** scheduler_schedule as a function: reap, then switch to the first runnable task after the current one. */
  ghost function Scheduled(v: View): View
  {
    var w := Reaped(v);
    var k := FirstRunnable(w.rest, w.states);
    if k < |w.rest| then Switched(w, k) else w
  }

  ghost function States(tasks: Tasks): map<Addr, TaskState>
  {
    map t | t in tasks :: tasks[t].state
  }

  lemma NoneBefore(r: seq<Addr>, states: map<Addr, TaskState>)
    ensures FirstRunnable(r, states) >= 0
  {
  }

  lemma NotHere(r: seq<Addr>, states: map<Addr, TaskState>, k: nat)
    requires k < |r| && FirstRunnable(r, states) >= k && r[k] in states && !Runnable(states[r[k]])
    ensures FirstRunnable(r, states) >= k + 1
  {
  }

  lemma StopsHere(r: seq<Addr>, states: map<Addr, TaskState>, k: nat)
    requires k <= |r| && FirstRunnable(r, states) >= k && (k < |r| ==> r[k] in states && Runnable(states[r[k]]))
    ensures FirstRunnable(r, states) == k
  {
  }

  lemma OnRing(tasks: Tasks, ring: seq<Addr>)
    requires Ring(tasks, ring)
    ensures 1 <= |ring| && forall t :: t in tasks <==> t in ring
  {
    forall t | t in ring ensures t in tasks {
      var i :| 0 <= i < |ring| && ring[i] == t;
      assert LinkedAt(tasks, ring, i);
    }
  }

  lemma RestAvoids(tasks: Tasks, ring: seq<Addr>, t: Addr, k: nat)
    requires Ring(tasks, ring) && t in ring && k < |Rest(ring, t)|
    ensures Rest(ring, t)[k] != t && Rest(ring, t)[k] in tasks
  {
    var i := IndexIn(ring, t);
    RestAt(ring, i);
    var j := if i + 1 + k < |ring| then i + 1 + k else i + 1 + k - |ring|;
    assert ring[j] == Rest(ring, t)[k];
    assert LinkedAt(tasks, ring, j);
  }

  lemma SavedSound(tasks: Tasks, kernel: Addr, current: Addr, nextPid: nat, heap: set<Addr>, g: Ledger, r: Frame)
    requires Sound(tasks, kernel, current, nextPid, heap, g)
    ensures current in tasks
    ensures Sound(tasks[current := tasks[current].(frame := r)], kernel, current, nextPid, heap,
                  g.(history := g.history + [Saved(tasks[current].id, r)]))
  {
    hide LastFrame;
    var e := Saved(tasks[current].id, r);
    var tasks', g' := tasks[current := tasks[current].(frame := r)], g.(history := g.history + [e]);
    assert TaskOk(tasks, current, kernel, current, nextPid, heap, g);
    forall t | t in tasks' ensures TaskOk(tasks', t, kernel, current, nextPid, heap, g') {
      assert TaskOk(tasks, t, kernel, current, nextPid, heap, g);
      LastFrameNext(g.history, e, tasks[t].id);
    }
    forall a | a in heap ensures Accounted(tasks', kernel, a, g') {
      assert Accounted(tasks, kernel, a, g);
    }
  }

  /** Switching to a ready task. */
  lemma SwitchSound(tasks: Tasks, kernel: Addr, current: Addr, nextPid: nat, heap: set<Addr>, g: Ledger, next: Addr)
    requires Sound(tasks, kernel, current, nextPid, heap, g)
    requires next in tasks && next != current && tasks[next].state == Ready
    ensures var a := if tasks[current].state == Running then tasks[current := tasks[current].(state := Ready)]
                     else tasks;
            Sound(a[next := a[next].(state := Running)], kernel, next, nextPid, heap, g)
  {
    hide LastFrame;
    var a := if tasks[current].state == Running then tasks[current := tasks[current].(state := Ready)] else tasks;
    var tasks' := a[next := a[next].(state := Running)];
    assert TaskOk(tasks, current, kernel, current, nextPid, heap, g);
    forall t | t in tasks' ensures TaskOk(tasks', t, kernel, next, nextPid, heap, g) {
      assert TaskOk(tasks, t, kernel, current, nextPid, heap, g);
    }
    forall x | x in heap ensures Accounted(tasks', kernel, x, g) {
      assert Accounted(tasks, kernel, x, g);
    }
  }

  lemma SoundBasics(tasks: Tasks, kernel: Addr, current: Addr, nextPid: nat, heap: set<Addr>, g: Ledger)
    requires Sound(tasks, kernel, current, nextPid, heap, g)
    ensures kernel in tasks && current in tasks && tasks[current].frame == LastFrame(g.history, tasks[current].id)
  {
    assert TaskOk(tasks, current, kernel, current, nextPid, heap, g);
  }

  lemma KernelIsZero(tasks: Tasks, kernel: Addr, current: Addr, nextPid: nat, heap: set<Addr>, g: Ledger, t: Addr)
    requires Sound(tasks, kernel, current, nextPid, heap, g) && t in tasks
    ensures t == kernel <==> tasks[t].id == 0
  {
    assert TaskOk(tasks, t, kernel, current, nextPid, heap, g) &&
           TaskOk(tasks, kernel, kernel, current, nextPid, heap, g);
  }

  lemma TickedSound(tasks: Tasks, tasks': Tasks, kernel: Addr, current: Addr, nextPid: nat, heap: set<Addr>, g: Ledger)
    requires Sound(tasks, kernel, current, nextPid, heap, g)
    requires tasks' == tasks[current := tasks[current].(ticks := tasks[current].ticks + 1)]
    ensures Sound(tasks', kernel, current, nextPid, heap, g)
  {
    hide LastFrame;
    forall t | t in tasks' ensures TaskOk(tasks', t, kernel, current, nextPid, heap, g) {
      assert TaskOk(tasks, t, kernel, current, nextPid, heap, g);
    }
    forall a | a in heap ensures Accounted(tasks', kernel, a, g) {
      assert Accounted(tasks, kernel, a, g);
    }
  }

  lemma KilledSound(tasks: Tasks, kernel: Addr, current: Addr, nextPid: nat, heap: set<Addr>, g: Ledger, t: Addr)
    requires Sound(tasks, kernel, current, nextPid, heap, g) && t in tasks && t != kernel
    ensures Sound(tasks[t := tasks[t].(state := Zombie)], kernel, current, nextPid, heap, g)
  {
    hide LastFrame;
    var tasks' := tasks[t := tasks[t].(state := Zombie)];
    forall x | x in tasks' ensures TaskOk(tasks', x, kernel, current, nextPid, heap, g) {
      assert TaskOk(tasks, x, kernel, current, nextPid, heap, g);
    }
    forall a | a in heap ensures Accounted(tasks', kernel, a, g) {
      assert Accounted(tasks, kernel, a, g);
    }
  }

  lemma LinkedInSteps(tasks: Tasks, head: Addr, t: Addr, body: Task, tasks': Tasks)
    requires head in tasks && tasks[head].prev in tasks && t !in tasks
    requires var last := tasks[head].prev;
             var a := tasks[t := body.(next := head, prev := last)];
             var b := a[last := a[last].(next := t)];
             tasks' == b[head := b[head].(prev := t)]
    ensures tasks' == LinkedIn(tasks, head, t, body)
  {
  }

  /** The ledger after a task is entered. */
  ghost function Entered(g: Ledger, t: Addr, body: Task): Ledger
  {
    Ledger(g.byPid[body.id := t], g.stackOwner[body.stack := t], g.history + [Saved(body.id, body.frame)])
  }

  lemma LinkedInBodies(tasks: Tasks, ring: seq<Addr>, t: Addr, body: Task)
    requires Ring(tasks, ring) && t !in tasks
    ensures 1 <= |ring| && ring[0] in tasks && tasks[ring[0]].prev in tasks
    ensures var u := LinkedIn(tasks, ring[0], t, body);
            && u.Keys == tasks.Keys + {t} && Body(u[t]) == Body(body)
            && forall x :: x in tasks ==> Body(u[x]) == Body(tasks[x])
  {
    LinkedInAt(tasks, ring, t, body, 0);
  }

  lemma CreatedSound(tasks: Tasks, ring: seq<Addr>, t: Addr, body: Task, kernel: Addr, current: Addr, nextPid: nat,
      heap: set<Addr>, g: Ledger)
    requires Ring(tasks, ring) && Sound(tasks, kernel, current, nextPid, heap, g)
    requires t != 0 && t !in tasks && t !in heap && body.stack != 0 && body.stack !in heap && body.stack !in tasks &&
             body.stack != t
    requires body.id == nextPid && body.state == Ready
    ensures ring[0] in tasks && tasks[ring[0]].prev in tasks
    ensures Sound(LinkedIn(tasks, ring[0], t, body), kernel, current, nextPid + 1, heap + {t} + {body.stack},
            Entered(g, t, body))
  {
    hide LinkedIn, LastFrame, Ring;
    LinkedInBodies(tasks, ring, t, body);
    var u, heap', g' := LinkedIn(tasks, ring[0], t, body), heap + {t} + {body.stack}, Entered(g, t, body);
    assert u[t].stack == Body(u[t]).stack && u[t].id == Body(u[t]).id;
    forall x | x in u ensures TaskOk(u, x, kernel, current, nextPid + 1, heap', g') {
      LastFrameNext(g.history, Saved(body.id, body.frame), u[x].id);
      if x == t {
        CreatedOk(u, t, body, kernel, current, nextPid, heap', g');
      } else {
        assert TaskOk(tasks, x, kernel, current, nextPid, heap, g);
        assert Body(u[x]) == Body(tasks[x]);
      }
    }
    forall a | a in heap' ensures Accounted(u, kernel, a, g') {
      if a != t && a != body.stack { CreatedAccounted(tasks, u, kernel, a, g, t, body); }
    }
  }

  lemma CreatedAccounted(tasks: Tasks, u: Tasks, kernel: Addr, a: Addr, g: Ledger, t: Addr, body: Task)
    requires Accounted(tasks, kernel, a, g) && a != body.stack
    requires u.Keys == tasks.Keys + {t} && forall x :: x in tasks ==> Body(u[x]) == Body(tasks[x])
    ensures Accounted(u, kernel, a, Entered(g, t, body))
  {
    if a in g.stackOwner && g.stackOwner[a] in tasks {
      assert Body(u[g.stackOwner[a]]).stack == Body(tasks[g.stackOwner[a]]).stack;
    }
  }

  lemma CreatedOk(u: Tasks, t: Addr, body: Task, kernel: Addr, current: Addr, nextPid: nat, heap: set<Addr>, g: Ledger)
    requires t in u && Body(u[t]) == Body(body) && t != kernel && t != current && t != 0
    requires body.id == nextPid && body.state == Ready && nextPid in g.byPid && g.byPid[nextPid] == t
    requires body.frame == LastFrame(g.history, body.id)
    requires t in heap && body.stack in heap && body.stack != 0 && body.stack !in u && body.stack in g.stackOwner &&
             g.stackOwner[body.stack] == t
    ensures TaskOk(u, t, kernel, current, nextPid + 1, heap, g)
  {
    hide LastFrame;
    var b := Body(u[t]);
    assert b.id == u[t].id && b.state == u[t].state && b.frame == u[t].frame && b.stack == u[t].stack;
  }

  /** What the invariant says, spelled out: one process id per task, the kernel task is no zombie, only the
      current task may be running, no two tasks share a stack. */
  lemma SoundMeans(tasks: Tasks, kernel: Addr, current: Addr, nextPid: nat, heap: set<Addr>, g: Ledger, t: Addr,
      u: Addr)
    requires Sound(tasks, kernel, current, nextPid, heap, g) && t in tasks && u in tasks && t != u
    ensures tasks[t].id != tasks[u].id && tasks[kernel].state != Zombie
    ensures t != current ==> tasks[t].state != Running
    ensures t != kernel ==> tasks[t].stack != tasks[u].stack && tasks[t].stack != u
  {
    assert TaskOk(tasks, t, kernel, current, nextPid, heap, g) && TaskOk(tasks, u, kernel, current, nextPid, heap, g);
    assert TaskOk(tasks, kernel, kernel, current, nextPid, heap, g);
  }

  /** The stacks of a set of tasks that do not share stacks are as many as the tasks. */
  lemma {:induction false} StacksCounted(tasks: Tasks, ts: set<Addr>)
    requires forall t :: t in ts ==> t in tasks
    requires forall t, u :: t in ts && u in ts && t != u ==> tasks[t].stack != tasks[u].stack
    ensures |set t | t in ts :: tasks[t].stack| == |ts|
  {
    if ts == {} {
      assert (set t | t in ts :: tasks[t].stack) == {};
    } else {
      var x :| x in ts;
      StacksCounted(tasks, ts - {x});
      assert (set t | t in ts :: tasks[t].stack) == (set t | t in ts - {x} :: tasks[t].stack) + {tasks[x].stack};
    }
  }

  lemma HeldBlocks(tasks: Tasks, kernel: Addr, current: Addr, nextPid: nat, heap: set<Addr>, g: Ledger)
    requires Sound(tasks, kernel, current, nextPid, heap, g)
    ensures var ts := tasks.Keys - {kernel};
            var stacks := set t | t in ts :: tasks[t].stack;
            heap == ts + stacks && ts !! stacks
  {
    hide LastFrame;
    var ts := tasks.Keys - {kernel};
    var stacks := set t | t in ts :: tasks[t].stack;
    forall t | t in ts ensures t in heap && tasks[t].stack in heap && tasks[t].stack !in tasks {
      assert TaskOk(tasks, t, kernel, current, nextPid, heap, g);
    }
    forall a | a in heap ensures a in ts + stacks {
      assert Accounted(tasks, kernel, a, g);
    }
  }

  /** Every task but the kernel's holds exactly two blocks, and the scheduler holds no others. */
  lemma TwoBlocksEach(tasks: Tasks, kernel: Addr, current: Addr, nextPid: nat, heap: set<Addr>, g: Ledger)
    requires Sound(tasks, kernel, current, nextPid, heap, g)
    ensures |heap| == 2 * (|tasks| - 1)
  {
    hide LastFrame;
    var ts := tasks.Keys - {kernel};
    forall t, u | t in ts && u in ts && t != u ensures tasks[t].stack != tasks[u].stack {
      SoundMeans(tasks, kernel, current, nextPid, heap, g, t, u);
    }
    StacksCounted(tasks, ts);
    HeldBlocks(tasks, kernel, current, nextPid, heap, g);
  }

  /** What reaping does to the view. */
  lemma AfterReap(tasks: Tasks, ring: seq<Addr>, tasks': Tasks, ring': seq<Addr>, cur: Addr)
    requires Ring(tasks, ring) && Ring(tasks', ring') && cur in ring
    requires ring' == Kept(ring, Dead(tasks, cur))
    requires SameBodies(tasks, tasks') && tasks'.Keys == tasks.Keys - Dead(tasks, cur)
    ensures cur in ring'
    ensures View(cur, Rest(ring', cur), States(tasks')) == Reaped(View(cur, Rest(ring, cur), States(tasks)))
  {
    hide Kept, Rest;
    RestKept(ring, cur, Dead(tasks, cur));
    var v := View(cur, Rest(ring, cur), States(tasks));
    assert Reapable(v) == Dead(tasks, cur);
    assert forall t :: t in tasks' ==> tasks'[t].state == Body(tasks'[t]).state;
    assert States(tasks') == v.states - Dead(tasks, cur);
  }

  /** A zombie never keeps the processor: the kernel task is there to run. */
  lemma SomeoneRuns(tasks: Tasks, ring: seq<Addr>, kernel: Addr, current: Addr, nextPid: nat, heap: set<Addr>,
      g: Ledger)
    requires Ring(tasks, ring) && Sound(tasks, kernel, current, nextPid, heap, g) && current in ring
    ensures var r := Rest(ring, current);
            var k := FirstRunnable(r, States(tasks));
            if k < |r| then r[k] in tasks && r[k] != current && tasks[r[k]].state == Ready
            else tasks[current].state == Running
  {
    hide Rest;
    var r := Rest(ring, current);
    var k := FirstRunnable(r, States(tasks));
    assert TaskOk(tasks, current, kernel, current, nextPid, heap, g) &&
           TaskOk(tasks, kernel, kernel, current, nextPid, heap, g);
    if k < |r| {
      RestAvoids(tasks, ring, current, k);
      assert TaskOk(tasks, r[k], kernel, current, nextPid, heap, g);
    } else if kernel != current {
      var j := InRest(tasks, ring, current, kernel);
    }
  }

  lemma InRest(tasks: Tasks, ring: seq<Addr>, t: Addr, x: Addr) returns (j: nat)
    requires Ring(tasks, ring) && t in ring && x in tasks && x != t
    ensures j < |Rest(ring, t)| && Rest(ring, t)[j] == x
  {
    var i, k := IndexIn(ring, t), IndexIn(ring, x);
    RestAt(ring, i);
    j := if i < k then k - i - 1 else k + |ring| - i - 1;
  }

  lemma RingMoved(tasks: Tasks, ring: seq<Addr>, t: Addr, k: nat)
    requires Ring(tasks, ring) && t in ring && k < |ring| - 1
    ensures var r := Rest(ring, t);
            r[k] in ring && Rest(ring, r[k]) == r[k + 1..] + [t] + r[..k]
  {
    RestMoved(ring, t, k);
  }

  // ---------------------------------------------------------------- the scheduler

  /** The task has this process id and has not been killed. */
  predicate IsLive(k: Task, pid: nat) { k.id == pid && k.state != Zombie }

  class Scheduler {
    var tasks: Tasks
    var kernel: Addr
    var current: Addr
    var head: Addr
    var nextPid: nat
    var tick: nat
    var heap: set<Addr>
    ghost var ring: seq<Addr>
    ghost var ledger: Ledger

    /** True in every reachable state. */
    ghost predicate Valid()
      reads this
    {
      && Ring(tasks, ring) && ring[0] == kernel == head && |ring| <= MAX_TASKS
      && Sound(tasks, kernel, current, nextPid, heap, ledger)
    }

    ghost function ViewOf(): View
      requires Ring(tasks, ring) && current in ring
      reads this
    {
      View(current, Rest(ring, current), States(tasks))
    }

    /** scheduler_init; the kernel task is a static structure at address k. */
    method Init(k: Addr)
      modifies this
      ensures Valid() && kernel == current == k && heap == {} && nextPid == 1 && tick == 0
      ensures tasks == map[k := Task(0, Running, 0, 0, 0, k, k)] && ring == [k] && ledger.history == []
    {
      kernel, current, head, nextPid, tick, heap := k, k, k, 1, 0, {};
      tasks := map[k := Task(0, Running, 0, 0, 0, k, k)];
      ring := [k];
      ledger := Ledger(map[0 := k], map[], []);
    }

    /** scheduler_get_task_list: the number of tasks. */
    method CountTasks() returns (count: nat)
      requires Ring(tasks, ring) && ring[0] == head
      ensures count == |ring|
    {
      count := 0;
      var curr := head;
      assert LinkedAt(tasks, ring, 0);
      while count == 0 || curr != head
        invariant count <= |ring| && (count < |ring| ==> curr == ring[count]) && (count == |ring| ==> curr == head)
        decreases |ring| - count
      {
        assert LinkedAt(tasks, ring, count);
        count := count + 1;
        curr := tasks[curr].next;
      }
    }

    /** kfree of a block that is held. */
    method Free(a: Addr)
      requires a in heap
      modifies this`heap
      ensures heap == old(heap) - {a}
    {
      heap := heap - {a};
    }

    /** Reaping one zombie: unlink it, free its stack, free the task.  Both blocks are held when they are freed. */
    method ReapTask(curr: Addr, ghost j: nat)
      requires Ring(tasks, ring) && Sound(tasks, kernel, current, nextPid, heap, ledger)
      requires 0 < j < |ring| && curr == ring[j] && curr in tasks && tasks[curr].state == Zombie && curr != current
      modifies this`tasks, this`heap, this`ring
      ensures Ring(tasks, ring) && Sound(tasks, kernel, current, nextPid, heap, ledger)
      ensures ring == Without(old(ring), j) && SameBodies(old(tasks), tasks) && tasks.Keys == old(tasks).Keys - {curr}
    {
      hide Ring, Sound, Unlinked;
      RingWithout(tasks, ring, j);
      UnlinkedBodies(tasks, ring, j);
      ReapedSound(tasks, Unlinked(tasks, curr), curr, kernel, current, nextPid, heap, ledger);
      var stack := tasks[curr].stack;
      var p, n := tasks[curr].prev, tasks[curr].next;
      ghost var before := tasks;
      tasks := tasks[p := tasks[p].(next := n)];
      tasks := tasks[n := tasks[n].(prev := p)];
      StackHeld(before, curr, kernel, current, nextPid, heap, ledger);
      if stack != 0 { Free(stack); }
      Free(curr);
      tasks := tasks - {curr};
      UnlinkedInSteps(before, curr, tasks);
      ring := Without(ring, j);
    }

    /** The reaping loop of scheduler_schedule. */
    method Reap()
      requires Ring(tasks, ring) && ring[0] == kernel == head && Sound(tasks, kernel, current, nextPid, heap, ledger)
      modifies this`tasks, this`heap, this`ring
      ensures Ring(tasks, ring) && ring[0] == kernel == head && Sound(tasks, kernel, current, nextPid, heap, ledger)
      ensures ring == Kept(old(ring), Dead(old(tasks), current)) && |ring| <= |old(ring)|
      ensures SameBodies(old(tasks), tasks) && tasks.Keys == old(tasks).Keys - Dead(old(tasks), current)
    {
      hide Ring, Sound, Kept;
      ghost var tasks0, ring0, dead, m := tasks, ring, Dead(tasks, current), 1;
      ghost var n := |ring0|;
      RingStart(tasks, ring);
      DeadOnRing(tasks, ring, current);
      KeptKernel(tasks, ring, kernel, current, nextPid, heap, ledger);
      var curr := tasks[head].next;
      while curr != head
        invariant 1 <= m <= n && Ring(tasks, ring) && Sound(tasks, kernel, current, nextPid, heap, ledger)
        invariant ring == Kept(ring0[..m], dead) + ring0[m..] && 1 <= |Kept(ring0[..m], dead)| && ring[0] == kernel
        invariant curr == if m < n then ring0[m] else head
        invariant SameBodies(tasks0, tasks)
        invariant forall t :: t in tasks0 && t !in tasks ==> t in dead
        invariant forall t :: t in ring0[..m] && t in dead ==> t !in tasks
        decreases n - m
      {
        ghost var j := |Kept(ring0[..m], dead)|;
        KeptNext(ring0, m, dead);
        LinkAt(tasks, ring, j);
        var next := tasks[curr].next;
        if tasks[curr].state == Zombie && curr != current {
          ReapTask(curr, j);
        }
        curr := next;
        m := m + 1;
      }
      assert ring0[..n] == ring0;
      KeptShorter(ring0, dead);
      assert tasks.Keys == tasks0.Keys - dead;
    }

    /** The round-robin loop of scheduler_schedule: the first runnable task after the current one. */
    method Select() returns (next: Addr, ghost k: nat)
      requires Ring(tasks, ring) && current in ring
      ensures next in tasks && k == FirstRunnable(Rest(ring, current), States(tasks))
      ensures next == if k < |ring| - 1 then Rest(ring, current)[k] else current
    {
      hide Ring, Rest, FirstRunnable;
      ghost var r := Rest(ring, current);
      k := 0;
      WalkNext(tasks, ring, current, 0);
      OnRing(tasks, ring);
      next := tasks[current].next;
      NoneBefore(r, States(tasks));
      while next != current && tasks[next].state != Ready && tasks[next].state != Running
        invariant k <= |r| && next in tasks && next == if k < |r| then r[k] else current
        invariant FirstRunnable(r, States(tasks)) >= k
        decreases |r| - k
      {
        RestAvoids(tasks, ring, current, k);
        NotHere(r, States(tasks), k);
        WalkNext(tasks, ring, current, k + 1);
        next := tasks[next].next;
        k := k + 1;
      }
      if k < |r| { RestAvoids(tasks, ring, current, k); }
      StopsHere(r, States(tasks), k);
    }

    /** Saving the frame of the current task, as scheduler_schedule does first. */
    method Save(r: Frame)
      requires Valid()
      modifies this`tasks, this`ledger
      ensures Valid() && ledger.history == old(ledger.history) + [Saved(old(tasks[current].id), r)]
      ensures States(tasks) == old(States(tasks)) && current in tasks &&
              tasks[current].state == old(tasks[current].state)
      ensures SameTimes(old(tasks), tasks)
    {
      hide Ring, Sound;
      SavedSound(tasks, kernel, current, nextPid, heap, ledger, r);
      ghost var e := Saved(tasks[current].id, r);
      ghost var before := tasks;
      tasks := tasks[current := tasks[current].(frame := r)];
      ledger := ledger.(history := ledger.history + [e]);
      RingSameLinks(before, tasks, ring);
    }

    /** The switch at the end of scheduler_schedule, to the ready task at place k of the rest. */
    method SwitchTo(next: Addr, ghost k: nat)
      requires Ring(tasks, ring) && Sound(tasks, kernel, current, nextPid, heap, ledger) && current in ring
      requires k < |Rest(ring, current)| && next == Rest(ring, current)[k]
      requires next in tasks && next != current && tasks[next].state == Ready
      modifies this`tasks, this`current
      ensures Ring(tasks, ring) && Sound(tasks, kernel, current, nextPid, heap, ledger) && current == next &&
              current in ring
      ensures tasks.Keys == old(tasks).Keys && tasks[current].state == Running
      ensures ViewOf() == Switched(old(ViewOf()), k) && SameTimes(old(tasks), tasks)
    {
      hide Ring, Sound, Rest;
      SoundBasics(tasks, kernel, current, nextPid, heap, ledger);
      SwitchSound(tasks, kernel, current, nextPid, heap, ledger, next);
      RingMoved(tasks, ring, current, k);
      ghost var before := tasks;
      if tasks[current].state == Running {
        tasks := tasks[current := tasks[current].(state := Ready)];
      }
      current := next;
      tasks := tasks[current := tasks[current].(state := Running)];
      RingSameLinks(before, tasks, ring);
    }

    /** scheduler_schedule.  The frame returned is the one last saved for the task that now runs; that task is
        running and was not freed, nor was the one whose stack the call executes on. */
    method Schedule(r: Frame) returns (frame: Frame)
      requires Valid()
      modifies this`tasks, this`heap, this`ring, this`ledger, this`current
      ensures Valid() && current in tasks && tasks[current].state == Running
      ensures ledger.history == old(ledger.history) + [Saved(old(tasks[current].id), r)]
      ensures frame == LastFrame(ledger.history, tasks[current].id)
      ensures old(current) in tasks && (old(tasks[current].state) == Zombie ==> current != old(current))
      ensures old(current) in old(ring) && current in ring && ViewOf() == Scheduled(old(ViewOf()))
      ensures SameTimes(old(tasks), tasks)
    {
      hide Ring, Sound, Rest, Kept, LastFrame, Switched, SameTimes;
      OnRing(tasks, ring);
      SoundBasics(tasks, kernel, current, nextPid, heap, ledger);
      Save(r);
      ghost var tasks0, ring0 := tasks, ring;
      Reap();
      SoundBasics(tasks, kernel, current, nextPid, heap, ledger);
      assert tasks[current].state == Body(tasks[current]).state;
      AfterReap(tasks0, ring0, tasks, ring, current);
      BodiesHaveTimes(tasks0, tasks);
      SameTimesChain(old(tasks), tasks0, tasks);
      var next, k := Select();
      var state := tasks[current].state;
      next := if next == current && state != Running && state != Ready then kernel else next;
      SomeoneRuns(tasks, ring, kernel, current, nextPid, heap, ledger);
      if next != current {
        ghost var tasks1 := tasks;
        SwitchTo(next, k);
        SameTimesChain(old(tasks), tasks1, tasks);
      }
      SoundBasics(tasks, kernel, current, nextPid, heap, ledger);
      frame := tasks[current].frame;
    }

    /** scheduler_tick: the interrupted task is charged one tick of processor time, and no other. */
    method Tick(r: Frame) returns (frame: Frame)
      requires Valid()
      modifies this
      ensures Valid() && current in tasks && tasks[current].state == Running && tick == old(tick) + 1
      ensures ledger.history == old(ledger.history) + [Saved(old(tasks[current].id), r)]
      ensures frame == LastFrame(ledger.history, tasks[current].id)
      ensures old(current) in old(ring) && current in ring && ViewOf() == Scheduled(old(ViewOf()))
      ensures old(current) in tasks
      ensures Charged(old(tasks), tasks, old(current))
    {
      hide Ring, Sound, Scheduled, Rest, SameTimes, Charged;
      OnRing(tasks, ring);
      SoundBasics(tasks, kernel, current, nextPid, heap, ledger);
      tick := tick + 1;
      ghost var before := tasks;
      tasks := tasks[current := tasks[current].(ticks := tasks[current].ticks + 1)];
      TickedSound(before, tasks, kernel, current, nextPid, heap, ledger);
      assert States(tasks) == States(before);
      RingSameLinks(before, tasks, ring);
      ghost var charged := tasks;
      frame := Schedule(r);
      TimeCharged(before, charged, tasks, old(current));
    }

    /** The SYS_EXIT case of syscall_handler: a task other than the kernel's becomes a zombie and gives up the
        processor. */
    method SysExit(r: Frame) returns (frame: Frame)
      requires Valid()
      modifies this
      ensures Valid()
      ensures old(current == kernel) ==> frame == r && tasks == old(tasks) && current == old(current)
      ensures old(current == kernel) ==> ledger.history == old(ledger.history)
      ensures old(current != kernel) ==> ledger.history == old(ledger.history) + [Saved(old(tasks[current].id), r)]
      ensures old(current != kernel) ==>
                && old(current) in tasks && current != old(current) && current in tasks
                && tasks[current].state == Running
                && frame == LastFrame(ledger.history, tasks[current].id)
                && old(current) in old(ring) && current in ring
                && ViewOf() == Scheduled(Act(old(ViewOf()), Killed(old(current))))
      ensures SameTimes(old(tasks), tasks)
    {
      hide Ring, Sound, Scheduled, Rest;
      SoundBasics(tasks, kernel, current, nextPid, heap, ledger);
      OnRing(tasks, ring);
      KernelIsZero(tasks, kernel, current, nextPid, heap, ledger, current);
      if tasks[current].id == 0 { return r; }
      ghost var before := tasks;
      KilledSound(tasks, kernel, current, nextPid, heap, ledger, current);
      tasks := tasks[current := tasks[current].(state := Zombie)];
      RingSameLinks(before, tasks, ring);
      assert States(tasks) == States(before)[current := Zombie];
      frame := Schedule(r);
    }

    /** The SYS_YIELD case of syscall_handler. */
    method SysYield(r: Frame) returns (frame: Frame)
      requires Valid()
      modifies this
      ensures Valid() && current in tasks && tasks[current].state == Running
      ensures ledger.history == old(ledger.history) + [Saved(old(tasks[current].id), r)]
      ensures frame == LastFrame(ledger.history, tasks[current].id)
      ensures old(current) in old(ring) && current in ring && ViewOf() == Scheduled(old(ViewOf()))
      ensures SameTimes(old(tasks), tasks)
    {
      hide Ring, Sound, Scheduled, Rest;
      frame := Schedule(r);
    }

    /** task_kill: marks the one live task with this process id, if there is one. */
    method Kill(pid: nat) returns (rc: int)
      requires Valid()
      modifies this`tasks
      ensures Valid()
      ensures rc == 0 <==> pid != 0 && exists t :: t in old(tasks) && IsLive(old(tasks)[t], pid)
      ensures rc != 0 ==> rc == -1 && tasks == old(tasks)
      ensures rc == 0 ==> exists t :: t in old(tasks) && t != kernel && IsLive(old(tasks)[t], pid)
                                      && tasks == old(tasks)[t := old(tasks)[t].(state := Zombie)]
                                      && current in ring && ViewOf() == Act(old(ViewOf()), Killed(t))
    {
      hide Ring, Sound;
      if pid == 0 { return -1; }
      var t := head;
      ghost var i := 0;
      RingStart(tasks, ring);
      OnRing(tasks, ring);
      var first := true;
      while first || t != head
        invariant i <= |ring| && (i < |ring| ==> t == ring[i]) && (i == |ring| ==> t == head) && (first <==> i == 0)
        invariant forall k :: 0 <= k < i ==>
                  !(ring[k] in tasks && tasks[ring[k]].id == pid && tasks[ring[k]].state != Zombie)
        invariant tasks == old(tasks)
        decreases |ring| - i
      {
        LinkAt(tasks, ring, i);
        if tasks[t].id == pid && tasks[t].state != Zombie {
          KernelIsZero(tasks, kernel, current, nextPid, heap, ledger, t);
          KilledSound(tasks, kernel, current, nextPid, heap, ledger, t);
          SoundBasics(tasks, kernel, current, nextPid, heap, ledger);
          tasks := tasks[t := tasks[t].(state := Zombie)];
          RingSameLinks(old(tasks), tasks, ring);
          assert States(tasks) == States(old(tasks))[t := Zombie];
          return 0;
        }
        first := false;
        t := tasks[t].next;
        i := i + 1;
      }
      rc := -1;
    }

    /** task_create.  taskBlock and stackBlock are what kzalloc answers, 0 for NULL; top is the initial frame.
        A task is created exactly when there is room in the table and both blocks could be had. */
    method Create(entryGiven: bool, taskBlock: Addr, stackBlock: Addr, top: Frame) returns (t: Addr)
      requires Valid()
      requires taskBlock != 0 ==> taskBlock !in heap && taskBlock !in tasks
      requires stackBlock != 0 ==> stackBlock !in heap && stackBlock !in tasks && stackBlock != taskBlock
      modifies this
      ensures Valid() && current == old(current)
      ensures t != 0 <==> entryGiven && |old(ring)| < MAX_TASKS && taskBlock != 0 && stackBlock != 0
      ensures t == 0 ==> && tasks == old(tasks) && heap == old(heap) && nextPid == old(nextPid)
                         && ring == old(ring) && ledger == old(ledger)
      ensures t != 0 ==> && t == taskBlock && ring == old(ring) + [t] && t in tasks
                         && heap == old(heap) + {taskBlock, stackBlock}
                         && tasks[t].id == old(nextPid) && tasks[t].state == Ready && tasks[t].frame == top
                         && tasks[t].ticks == 0 && tasks[t].stack == stackBlock && nextPid == old(nextPid) + 1
                         && tasks.Keys == old(tasks).Keys + {t} && SameBodies(old(tasks), tasks - {t})
      ensures tick == old(tick) && kernel == old(kernel)
    {
      hide Ring, Sound, LinkedIn, LastFrame, SameBodies;
      if !entryGiven { return 0; }
      var count := CountTasks();
      if count >= MAX_TASKS { return 0; }
      if taskBlock == 0 { return 0; }
      heap := heap + {taskBlock};
      if stackBlock == 0 {
        Free(taskBlock);
        assert heap == old(heap);
        return 0;
      }
      heap := heap + {stackBlock};
      t := taskBlock;
      Enter(t, Task(nextPid, Ready, 0, top, stackBlock, 0, 0), old(heap));
      assert heap == old(heap) + {taskBlock, stackBlock};
    }

    /** Entering a new task at the tail of the ring. */
    method Enter(t: Addr, body: Task, ghost before: set<Addr>)
      requires Ring(tasks, ring) && ring[0] == kernel == head && |ring| < MAX_TASKS
      requires Sound(tasks, kernel, current, nextPid, before, ledger) && heap == before + {t} + {body.stack}
      requires t != 0 && t !in tasks && t !in before && body.stack != 0 && body.stack !in before && body.stack !in tasks
      requires body.stack != t && body.id == nextPid && body.state == Ready
      modifies this`tasks, this`ring, this`ledger, this`nextPid
      ensures Valid() && ring == old(ring) + [t] && nextPid == old(nextPid) + 1
      ensures t in tasks && Body(tasks[t]) == Body(body) && tasks.Keys == old(tasks).Keys + {t}
      ensures SameBodies(old(tasks), tasks - {t})
    {
      hide Ring, Sound, LinkedIn, LastFrame;
      RingExtended(tasks, ring, t, body);
      RingStart(tasks, ring);
      LinkedInAt(tasks, ring, t, body, 0);
      CreatedSound(tasks, ring, t, body, kernel, current, nextPid, before, ledger);
      LinkedInBodies(tasks, ring, t, body);
      ghost var tasks0 := tasks;
      var last := tasks[head].prev;
      tasks := tasks[t := body.(next := head, prev := last)];
      tasks := tasks[last := tasks[last].(next := t)];
      tasks := tasks[head := tasks[head].(prev := t)];
      LinkedInSteps(tasks0, head, t, body, tasks);
      ledger := Entered(ledger, t, body);
      nextPid := nextPid + 1;
      ring := ring + [t];
    }
  }

  // ---------------------------------------------------------------- fairness

  /** What can happen between two creations: a schedule call, or a task being killed or exiting. */
  datatype Action = ScheduleCall | Killed(t: Addr)

  ghost function Act(v: View, a: Action): View
  {
    match a
    case ScheduleCall => Scheduled(v)
    case Killed(t) => if t in v.states then v.(states := v.states[t := Zombie]) else v
  }

  /** Task t is ready and p tasks are ahead of it. */
  ghost predicate WaitsAt(v: View, t: Addr, p: nat)
  {
    p < |v.rest| && v.rest[p] == t && t in v.states && v.states[t] == Ready
  }

  /** One schedule call runs t or brings it nearer. */
  lemma StepCloser(v: View, t: Addr, p: nat) returns (p': nat)
    requires WaitsAt(v, t, p)
    ensures Scheduled(v).cur == t || (p' < p && WaitsAt(Scheduled(v), t, p'))
  {
    hide Kept, FirstRunnable;
    var w, dead := Reaped(v), Reapable(v);
    var q := KeptPlace(v.rest, dead, p);
    var k := FirstRunnable(w.rest, w.states);
    assert k <= q;
    p' := if k < q then q - k - 1 else 0;
    if k < q { assert (w.rest[k + 1..] + [v.cur] + w.rest[..k])[q - k - 1] == w.rest[q]; }
  }

  /** Reaping never pushes a surviving task back. */
  lemma KeptPlace(s: seq<Addr>, dead: set<Addr>, p: nat) returns (q: nat)
    requires p < |s| && s[p] !in dead
    ensures q <= p && q < |Kept(s, dead)| && Kept(s, dead)[q] == s[p]
  {
    var t := s[p];
    assert s == s[..p] + [t] + s[p + 1..];
    KeptConcat(s[..p] + [t], s[p + 1..], dead);
    KeptConcat(s[..p], [t], dead);
    assert Kept([t], dead) == [t] by { assert [t][..0] == []; }
    KeptShorter(s[..p], dead);
    q := |Kept(s[..p], dead)|;
  }

  /** Task t becomes current at one of the schedule calls of a run. */
  ghost predicate RunsIn(v: View, acts: seq<Action>, t: Addr)
    decreases |acts|
  {
    acts != [] &&
    var v' := Act(v, acts[0]);
    (acts[0].ScheduleCall? && v'.cur == t) || RunsIn(v', acts[1..], t)
  }

  ghost function Calls(acts: seq<Action>): nat
  {
    if acts == [] then 0 else (if acts[0].ScheduleCall? then 1 else 0) + Calls(acts[1..])
  }

  /** No starvation: a ready task that is not killed runs within its ring distance, whatever kills and exits
      of other tasks come between. */
  lemma {:induction false} ReadyTaskRuns(v: View, acts: seq<Action>, t: Addr, p: nat)
    requires WaitsAt(v, t, p) && Killed(t) !in acts && p < Calls(acts)
    ensures RunsIn(v, acts, t)
    decreases |acts|
  {
    if acts[0].ScheduleCall? {
      var q := StepCloser(v, t, p);
      if Scheduled(v).cur != t { ReadyTaskRuns(Scheduled(v), acts[1..], t, q); }
    } else {
      assert acts[0] in acts;
      ReadyTaskRuns(Act(v, acts[0]), acts[1..], t, p);
    }
  }

  /** Every task is live: the current one runs, the others are ready. */
  ghost predicate AllLive(v: View)
  {
    && v.cur in v.states && v.states[v.cur] == Running && v.cur !in v.rest
    && (forall t :: t in v.rest ==> t in v.states && v.states[t] == Ready)
    && (forall t :: t in v.states ==> v.states[t] != Zombie)
    && Distinct(v.rest)
  }

  /** In every sound state without zombies all tasks are live, so the results below apply to it. */
  lemma NoZombiesAllLive(tasks: Tasks, ring: seq<Addr>, kernel: Addr, current: Addr, nextPid: nat, heap: set<Addr>,
      g: Ledger)
    requires Ring(tasks, ring) && Sound(tasks, kernel, current, nextPid, heap, g)
    requires forall t :: t in tasks ==> tasks[t].state != Zombie
    ensures current in ring && AllLive(View(current, Rest(ring, current), States(tasks)))
  {
    hide LastFrame;
    OnRing(tasks, ring);
    var i, rest := IndexIn(ring, current), Rest(ring, current);
    RestAt(ring, i);
    forall k | 0 <= k < |rest| ensures rest[k] != current && rest[k] in tasks && tasks[rest[k]].state == Ready {
      RestAvoids(tasks, ring, current, k);
      assert TaskOk(tasks, rest[k], kernel, current, nextPid, heap, g);
    }
    assert TaskOk(tasks, current, kernel, current, nextPid, heap, g);
  }

  /** A ready task of a sound state waits at its place on the ring. */
  lemma ReadyTaskWaits(tasks: Tasks, ring: seq<Addr>, current: Addr, t: Addr) returns (p: nat)
    requires Ring(tasks, ring) && current in ring && t in tasks && t != current && tasks[t].state == Ready
    ensures WaitsAt(View(current, Rest(ring, current), States(tasks)), t, p)
  {
    OnRing(tasks, ring);
    var i := IndexIn(ring, current);
    RestAt(ring, i);
    var j := IndexIn(ring, t);
    p := if i < j then j - i - 1 else |ring| - i - 1 + j;
  }

  ghost function Order(v: View): seq<Addr> { [v.cur] + v.rest }

  ghost function Repeated(v: View, k: nat): View { if k == 0 then v else Scheduled(Repeated(v, k - 1)) }

  lemma {:induction false} KeptAll(s: seq<Addr>, dead: set<Addr>)
    requires forall t :: t in s ==> t !in dead
    ensures Kept(s, dead) == s
  {
    if s != [] { KeptAll(s[..|s| - 1], dead); }
  }

  lemma LiveCall(v: View)
    requires AllLive(v)
    ensures Scheduled(v) == if v.rest == [] then v else Switched(v, 0)
  {
    hide Kept, Distinct;
    assert Reapable(v) == {};
    KeptAll(v.rest, Reapable(v));
    assert v.states - {} == v.states;
    assert Reaped(v) == v;
    if v.rest != [] { assert v.rest[0] in v.rest; }
  }

  lemma LiveSwitch(v: View)
    requires AllLive(v) && v.rest != []
    ensures AllLive(Switched(v, 0))
  {
    var u := Switched(v, 0);
    assert u.rest == v.rest[1..] + [v.cur];
    assert v.rest[0] in v.rest;
    forall t | t in u.rest ensures t in u.states && u.states[t] == Ready && t != u.cur {
      if t != v.cur {
        var i :| 0 <= i < |v.rest[1..]| && v.rest[1..][i] == t;
        assert v.rest[i + 1] == t;
      }
    }
  }

  /** With all tasks live, a call rotates the order by one. */
  lemma RotatesByOne(v: View)
    requires AllLive(v)
    ensures AllLive(Scheduled(v)) && Order(Scheduled(v)) == Order(v)[1..] + [v.cur]
  {
    hide AllLive, Scheduled;
    LiveCall(v);
    if v.rest != [] { LiveSwitch(v); }
  }

  lemma {:induction false} OrderAfter(v: View, k: nat)
    requires AllLive(v) && k <= |Order(v)|
    ensures AllLive(Repeated(v, k)) && Order(Repeated(v, k)) == Order(v)[k..] + Order(v)[..k]
  {
    hide AllLive, Scheduled;
    var o := Order(v);
    if k == 0 {
      assert o[0..] + o[..0] == o;
    } else {
      OrderAfter(v, k - 1);
      var u := Repeated(v, k - 1);
      RotatesByOne(u);
      assert u.cur == Order(u)[0] == o[k - 1];
      assert (o[k - 1..] + o[..k - 1])[1..] + [o[k - 1]] == o[k..] + o[..k];
    }
  }

  /** With a fixed set of n live tasks, each runs exactly once in every n consecutive calls. */
  lemma EachRunsOnce(v: View, t: Addr) returns (j: nat)
    requires AllLive(v) && t in Order(v)
    ensures 1 <= j <= |Order(v)| && Repeated(v, j).cur == t
    ensures forall i :: 1 <= i <= |Order(v)| && i != j ==> Repeated(v, i).cur != t
  {
    var o := Order(v);
    var m :| 0 <= m < |o| && o[m] == t;
    j := if m == 0 then |o| else m;
    OrderAfter(v, j);
    assert Order(Repeated(v, j))[0] == Repeated(v, j).cur;
    forall i | 1 <= i <= |o| && i != j ensures Repeated(v, i).cur != t {
      OrderAfter(v, i);
      assert Order(Repeated(v, i))[0] == Repeated(v, i).cur;
      assert Order(Repeated(v, i))[0] == o[if i == |o| then 0 else i];
    }
  }
}
