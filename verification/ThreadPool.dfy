/**
  * The thread pool as a transition system: workers, callers of enqueue and wait, and the thread that
  * destroys the pool, interleaving one statement at a time over a mutex and two condition variables.
  */
module ThreadPool {
  import opened Sequences
  import opened Counting

  const CAP: nat := 4096

  datatype Task = Task(fn: nat, ctx: nat)

  /** Where a worker is in worker_thread. `k` is the position of its task in acceptance order. */
  datatype Worker =
    | WLock                              // about to lock the mutex at the top of the loop
    | WTest                              // holds it, about to test `empty && running`
    | WWait                              // holds it, about to wait on cv_not_empty
    | WAsleep                            // waiting
    | WLeave                             // holds it, past the wait loop, about to test for shutdown
    | WQuit                              // holds it, about to unlock and leave
    | WExited
    | WTake                              // holds it, about to read a queue slot
    | WTaken(task: Task, k: nat)         // holds it, about to advance queue_tail
    | WCounted(task: Task, k: nat)       // holds it, about to increment active
    | WUnlock(task: Task, k: nat)        // holds it, about to unlock
    | WSignal(task: Task, k: nat)        // about to signal cv_not_full
    | WRun(task: Task, k: nat)           // about to call its function
    | WRelock                            // task done, about to lock
    | WDrop                              // holds it, about to decrement active
    | WRelease                           // holds it, about to unlock

  /** A thread calling enqueue (E) or wait (Q). */
  datatype Client =
    | Idle
    | ELock(task: Task)                  // about to lock
    | ETest(task: Task)                  // holds the mutex, about to test `full && running`
    | EWait(task: Task)                  // holds it, about to wait on cv_not_full
    | EAsleep(task: Task)                // waiting
    | ECheck(task: Task)                 // holds it, past the wait loop, about to test running
    | EReject                            // holds it, about to unlock and return an error
    | EStore(task: Task)                 // holds it, about to write the queue slot
    | EBump(task: Task)                  // holds it, about to advance queue_head
    | EUnlock                            // holds it, about to unlock
    | ESignal                            // about to signal cv_not_empty
    | QLock                              // wait: about to lock
    | QTest                              // wait: holds it, about to test for idleness
    | QYield                             // wait: holds it, about to unlock and yield
    | QDone                              // wait: holds it, loop left, about to unlock and return

  datatype Destroyer = DIdle | DLock | DSet | DUnlock | DBroadcast | DJoin | DDone

  datatype Owner = Nobody | ByWorker(w: nat) | ByClient(c: nat) | ByDestroyer

  /** Pool fields and threads, then history: tasks in acceptance, dequeue and completion order. */
  datatype State = State(
    workers: seq<Worker>, clients: seq<Client>, destroyer: Destroyer, owner: Owner,
    running: bool, queue: seq<Task>, qhead: nat, qtail: nat, active: int,
    accepted: seq<Task>, taken: seq<Task>, runs: seq<nat>, ranTasks: seq<Task>)

  predicate Empty(s: State) { s.qhead == s.qtail }
  predicate Full(s: State) { s.qhead - s.qtail >= CAP }

  predicate NobodyAsleepC(clients: seq<Client>) { forall j :: 0 <= j < |clients| ==> !clients[j].EAsleep? }
  predicate NobodyAsleepW(workers: seq<Worker>) { forall j :: 0 <= j < |workers| ==> !workers[j].WAsleep? }

  predicate SleeperC(clients: seq<Client>, pick: nat) { pick < |clients| && clients[pick].EAsleep? }
  predicate SleeperW(workers: seq<Worker>, pick: nat) { pick < |workers| && workers[pick].WAsleep? }

  /** A waiter of cv_not_full / cv_not_empty resumes by taking the mutex and testing again. */
  function WakeC(clients: seq<Client>, pick: nat): seq<Client> {
    if SleeperC(clients, pick) then clients[pick := ELock(clients[pick].task)] else clients
  }

  function WakeW(workers: seq<Worker>, pick: nat): seq<Worker> {
    if SleeperW(workers, pick) then workers[pick := WLock] else workers
  }

  /** pthread_cond_signal wakes a sleeper of the scheduler's choice; it is lost only if nobody sleeps. */
  predicate CanSignalC(s: State, pick: nat) { SleeperC(s.clients, pick) || NobodyAsleepC(s.clients) }
  predicate CanSignalW(s: State, pick: nat) { SleeperW(s.workers, pick) || NobodyAsleepW(s.workers) }

  function WakeAllW(workers: seq<Worker>): (r: seq<Worker>)
    ensures |r| == |workers|
    ensures forall j :: 0 <= j < |r| ==> r[j] == if workers[j].WAsleep? then WLock else workers[j]
  {
    seq(|workers|, j requires 0 <= j < |workers| => if workers[j].WAsleep? then WLock else workers[j])
  }

  /** Where worker position w leads; a statement that must block stays where it is. */
  function WorkerGoes(s: State, w: Worker, pick: nat): Worker
    requires |s.queue| == CAP
  {
    match w
    case WLock => if s.owner.Nobody? then WTest else WLock
    case WTest => if Empty(s) && s.running then WWait else WLeave
    case WWait => WAsleep
    case WAsleep => WAsleep
    case WLeave => if !s.running && Empty(s) then WQuit else WTake
    case WQuit => WExited
    case WExited => WExited
    case WTake => WTaken(s.queue[s.qtail % CAP], s.qtail)
    case WTaken(t, k) => WCounted(t, k)
    case WCounted(t, k) => WUnlock(t, k)
    case WUnlock(t, k) => WSignal(t, k)
    case WSignal(t, k) => if CanSignalC(s, pick) then WRun(t, k) else w
    case WRun(_, _) => WRelock
    case WRelock => if s.owner.Nobody? then WDrop else WRelock
    case WDrop => WRelease
    case WRelease => WLock
  }

  /** One statement of worker i: its position, and what the statement writes. */
  function WorkerStep(s: State, i: nat, pick: nat): State
    requires i < |s.workers| && |s.queue| == CAP
  {
    var w := s.workers[i];
    s.(workers := s.workers[i := WorkerGoes(s, w, pick)],
       clients := if w.WSignal? then WakeC(s.clients, pick) else s.clients,
       owner := if w.WWait? || w.WQuit? || w.WUnlock? || w.WRelease? then Nobody
                else if (w.WLock? || w.WRelock?) && s.owner.Nobody? then ByWorker(i)
                else s.owner,
       qtail := if w.WTaken? then s.qtail + 1 else s.qtail,
       taken := if w.WTaken? then s.taken + [w.task] else s.taken,
       active := if w.WCounted? then s.active + 1 else if w.WDrop? then s.active - 1 else s.active,
       runs := if w.WRun? then s.runs + [w.k] else s.runs,
       ranTasks := if w.WRun? then s.ranTasks + [w.task] else s.ranTasks)
  }

  /** Where client position c leads; an idle client starts the given call. */
  function ClientGoes(s: State, c: Client, pick: nat, call: Client): Client
  {
    match c
    case Idle => if call.ELock? || call.QLock? then call else Idle
    case ELock(t) => if s.owner.Nobody? then ETest(t) else c
    case ETest(t) => if Full(s) && s.running then EWait(t) else ECheck(t)
    case EWait(t) => EAsleep(t)
    case EAsleep(t) => c
    case ECheck(t) => if s.running then EStore(t) else EReject
    case EReject => Idle
    case EStore(t) => EBump(t)
    case EBump(_) => EUnlock
    case EUnlock => ESignal
    case ESignal => if CanSignalW(s, pick) then Idle else ESignal
    case QLock => if s.owner.Nobody? then QTest else QLock
    case QTest => if !Empty(s) || s.active > 0 then QYield else QDone
    case QYield => QLock
    case QDone => Idle
  }

  function ClientStep(s: State, i: nat, pick: nat, call: Client): State
    requires i < |s.clients| && |s.queue| == CAP
  {
    var c := s.clients[i];
    s.(clients := s.clients[i := ClientGoes(s, c, pick, call)],
       workers := if c.ESignal? then WakeW(s.workers, pick) else s.workers,
       owner := if c.EWait? || c.EReject? || c.EUnlock? || c.QYield? || c.QDone? then Nobody
                else if (c.ELock? || c.QLock?) && s.owner.Nobody? then ByClient(i)
                else s.owner,
       queue := if c.EStore? then s.queue[s.qhead % CAP := c.task] else s.queue,
       qhead := if c.EBump? then s.qhead + 1 else s.qhead,
       accepted := if c.EBump? then s.accepted + [c.task] else s.accepted)
  }

  function DestroyerStep(s: State): State {
    match s.destroyer
    case DIdle => s.(destroyer := DLock)
    case DLock => if s.owner.Nobody? then s.(destroyer := DSet, owner := ByDestroyer) else s
    case DSet => s.(destroyer := DUnlock, running := false)
    case DUnlock => s.(destroyer := DBroadcast, owner := Nobody)
    case DBroadcast => s.(destroyer := DJoin, workers := WakeAllW(s.workers))
    case DJoin => if forall j :: 0 <= j < |s.workers| ==> s.workers[j].WExited? then s.(destroyer := DDone) else s
    case DDone => s
  }

  /** Who moves next; condition variables may also wake a sleeper spuriously. */
  datatype Action =
    | Work(w: nat, pick: nat)
    | Call(c: nat, pick: nat, call: Client)
    | Destroy
    | SpuriousW(w: nat)
    | SpuriousC(c: nat)

  function Step(s: State, a: Action): State
    requires |s.queue| == CAP
  {
    match a
    case Work(w, pick) => if w < |s.workers| then WorkerStep(s, w, pick) else s
    case Call(c, pick, call) => if c < |s.clients| then ClientStep(s, c, pick, call) else s
    case Destroy => DestroyerStep(s)
    case SpuriousW(w) => s.(workers := WakeW(s.workers, w))
    case SpuriousC(c) => s.(clients := WakeC(s.clients, c))
  }

  predicate Initial(s: State) {
    && |s.workers| >= 1 && |s.queue| == CAP
    && (forall i :: 0 <= i < |s.workers| ==> s.workers[i] == WLock)
    && (forall i :: 0 <= i < |s.clients| ==> s.clients[i] == Idle)
    && s.destroyer == DIdle && s.owner == Nobody && s.running
    && s.qhead == s.qtail == 0 && s.active == 0
    && s.accepted == [] && s.taken == [] && s.runs == [] && s.ranTasks == []
  }

  // ---- Thread positions ---------------------------------------------------------------------

  predicate WCritical(w: Worker) {
    w.WTest? || w.WWait? || w.WLeave? || w.WQuit? || w.WTake? || w.WTaken? || w.WCounted? || w.WUnlock? || w.WDrop? || w.WRelease?
  }

  predicate CCritical(c: Client) {
    c.ETest? || c.EWait? || c.ECheck? || c.EReject? || c.EStore? || c.EBump? || c.EUnlock? || c.QTest? || c.QYield? || c.QDone?
  }

  predicate DCritical(d: Destroyer) { d.DSet? || d.DUnlock? }

  /** Dequeued, not yet run. */
  predicate Claims(w: Worker) { w.WCounted? || w.WUnlock? || w.WSignal? || w.WRun? }
  /** Between the increment and the decrement of `active`. */
  predicate Counted(w: Worker) { w.WUnlock? || w.WSignal? || w.WRun? || w.WRelock? || w.WDrop? }
  /** Has freed a queue slot and still owes the cv_not_full signal. */
  predicate OwesNotFull(w: Worker) { w.WCounted? || w.WUnlock? || w.WSignal? }
  predicate Leaving(w: Worker) { w.WQuit? || w.WExited? }
  /** In an enqueue call, awake, and not yet stored. */
  predicate Enqueuing(c: Client) { c.ELock? || c.ETest? || c.EWait? || c.ECheck? || c.EStore? || c.EBump? }
  predicate OwesNotEmpty(c: Client) { c.EUnlock? || c.ESignal? }

  // ---- The invariant ------------------------------------------------------------------------

  /** A thread is inside a critical section exactly when it owns the mutex. */
  ghost predicate Mutex(s: State) {
    && (forall i :: 0 <= i < |s.workers| ==> (WCritical(s.workers[i]) <==> s.owner == ByWorker(i)))
    && (forall i :: 0 <= i < |s.clients| ==> (CCritical(s.clients[i]) <==> s.owner == ByClient(i)))
    && (DCritical(s.destroyer) <==> s.owner == ByDestroyer)
  }

  ghost predicate Queue(s: State) {
    && |s.workers| >= 1 && |s.queue| == CAP
    && s.qhead == |s.accepted| && s.qtail <= s.qhead <= s.qtail + CAP
    && (forall k :: s.qtail <= k < s.qhead ==> s.queue[k % CAP] == s.accepted[k])
    && s.taken == s.accepted[..s.qtail]
    && (s.running <==> s.destroyer.DIdle? || s.destroyer.DLock? || s.destroyer.DSet?)
  }

  ghost predicate WorkerOk(s: State, w: Worker) {
    && (w.WWait? ==> Empty(s) && s.running)
    && (w.WLeave? ==> !(Empty(s) && s.running))
    && (w.WTake? ==> s.qtail < s.qhead)
    && (w.WTaken? ==> w.k == s.qtail < s.qhead && w.k < |s.accepted| && w.task == s.accepted[w.k])
    && (Claims(w) ==> w.k < s.qtail && w.k < |s.accepted| && w.task == s.accepted[w.k] && w.k !in s.runs)
    && (Leaving(w) ==> !s.running && Empty(s))
  }

  ghost predicate ClientOk(s: State, c: Client) {
    && (c.EWait? ==> Full(s) && s.running)
    && (c.ECheck? ==> !(Full(s) && s.running))
    && (c.EStore? || c.EBump? ==> !Full(s) && s.running)
    && (c.EBump? ==> |s.queue| == CAP && s.queue[s.qhead % CAP] == c.task)
    && (c.QDone? ==> Empty(s) && s.active <= 0)
  }

  ghost predicate History(s: State) {
    && Distinct(s.runs) && |s.ranTasks| == |s.runs|
    && (forall j :: 0 <= j < |s.runs| ==> s.runs[j] < s.qtail && s.runs[j] < |s.accepted| && s.ranTasks[j] == s.accepted[s.runs[j]])
    && ClaimsDistinct(s.workers)
    && Count(s.workers, Claims) + |s.runs| == s.qtail
    && Count(s.workers, Counted) == s.active
  }

  predicate AllAsleepW(workers: seq<Worker>) { forall i :: 0 <= i < |workers| ==> workers[i].WAsleep? }
  predicate SomeOwesNotEmpty(clients: seq<Client>) { exists c :: 0 <= c < |clients| && OwesNotEmpty(clients[c]) }

  /** With work queued and every worker asleep, a signal or the broadcast is still to come. */
  ghost predicate WorkWakes(s: State) {
    !Empty(s) && AllAsleepW(s.workers) ==> SomeOwesNotEmpty(s.clients) || s.destroyer.DUnlock? || s.destroyer.DBroadcast?
  }

  /** After the shutdown broadcast no worker sleeps. */
  ghost predicate ShutdownWakes(s: State) {
    s.destroyer.DJoin? || s.destroyer.DDone? ==> NobodyAsleepW(s.workers)
  }

  /** While the pool runs and a producer sleeps, every free slot is spoken for by an awake producer or a pending signal. */
  ghost predicate RoomWakes(s: State) {
    s.running && !NobodyAsleepC(s.clients) ==>
      s.qhead - s.qtail + Count(s.clients, Enqueuing) + Count(s.workers, OwesNotFull) >= CAP
  }

  ghost predicate Wakeups(s: State) {
    WorkWakes(s) && ShutdownWakes(s) && RoomWakes(s)
  }

  ghost predicate Inv(s: State) {
    && Mutex(s) && Queue(s) && History(s) && Wakeups(s)
    && (forall i :: 0 <= i < |s.workers| ==> WorkerOk(s, s.workers[i]))
    && (forall i :: 0 <= i < |s.clients| ==> ClientOk(s, s.clients[i]))
  }

  // ---- What each kind of step does to the invariant -----------------------------------------

  /** The fields `Queue` speaks of, but for queue_tail and the dequeue history. */
  predicate SameQueue(s: State, s': State) {
    && |s'.workers| == |s.workers| && s'.queue == s.queue && s'.qhead == s.qhead && s'.accepted == s.accepted
    && s'.running == s.running && s'.destroyer == s.destroyer
  }

  lemma {:induction false} QueueKept(s: State, s': State)
    requires Queue(s) && SameQueue(s, s') && s'.qtail == s.qtail && s'.taken == s.taken
    ensures Queue(s')
  {
  }

  lemma {:induction false} QueueTaken(s: State, s': State)
    requires Queue(s) && SameQueue(s, s') && s.qtail < s.qhead
    requires s'.qtail == s.qtail + 1 && s'.taken == s.taken + [s.accepted[s.qtail]]
    ensures Queue(s')
  {
  }

  predicate SameClaim(w: Worker, w': Worker) {
    Claims(w) == Claims(w') && (Claims(w) ==> w.k == w'.k)
  }

  ghost predicate ClaimsDistinct(workers: seq<Worker>) {
    forall i, j :: 0 <= i < j < |workers| && Claims(workers[i]) && Claims(workers[j]) ==> workers[i].k != workers[j].k
  }

  lemma {:induction false} HistoryKept(s: State, s': State, i: nat)
    requires History(s) && i < |s.workers| == |s'.workers|
    requires s'.workers == s.workers[i := s'.workers[i]] && SameClaim(s.workers[i], s'.workers[i])
    requires s'.qtail == s.qtail && s.accepted <= s'.accepted && s'.runs == s.runs && s'.ranTasks == s.ranTasks
    requires s'.active == s.active + (if Counted(s'.workers[i]) then 1 else 0) - (if Counted(s.workers[i]) then 1 else 0)
    ensures History(s')
  {
    CountUpdate(s.workers, Claims, i, s'.workers[i]);
    CountUpdate(s.workers, Counted, i, s'.workers[i]);
  }

  lemma {:induction false} HistoryTaken(s: State, s': State, i: nat)
    requires History(s) && i < |s.workers| == |s'.workers|
    requires s.workers[i].WTaken? && s'.workers[i].WCounted? && s'.workers[i].k == s.qtail
    requires s'.workers == s.workers[i := s'.workers[i]]
    requires forall j :: 0 <= j < |s.workers| && Claims(s.workers[j]) ==> s.workers[j].k < s.qtail
    requires s'.qtail == s.qtail + 1 && s'.accepted == s.accepted && s'.runs == s.runs && s'.ranTasks == s.ranTasks
    requires s'.active == s.active
    ensures History(s')
  {
    CountUpdate(s.workers, Claims, i, s'.workers[i]);
    CountUpdate(s.workers, Counted, i, s'.workers[i]);
  }

  lemma {:induction false} HistoryRan(s: State, s': State, i: nat)
    requires History(s) && i < |s.workers| == |s'.workers|
    requires s.workers[i].WRun? && s'.workers[i] == WRelock && WorkerOk(s, s.workers[i])
    requires s'.workers == s.workers[i := WRelock]
    requires s'.qtail == s.qtail && s'.accepted == s.accepted && s'.active == s.active
    requires s'.runs == s.runs + [s.workers[i].k] && s'.ranTasks == s.ranTasks + [s.workers[i].task]
    ensures History(s')
  {
    CountUpdate(s.workers, Claims, i, WRelock);
    CountUpdate(s.workers, Counted, i, WRelock);
  }

  // ---- Worker steps -------------------------------------------------------------------------

  lemma {:induction false} WorkerMutex(s: State, i: nat, pick: nat)
    requires Mutex(s) && i < |s.workers| && |s.queue| == CAP
    ensures Mutex(WorkerStep(s, i, pick))
  {
  }

  lemma {:induction false} WorkerQueue(s: State, i: nat, pick: nat)
    requires Queue(s) && i < |s.workers| && WorkerOk(s, s.workers[i])
    ensures Queue(WorkerStep(s, i, pick))
  {
    var s' := WorkerStep(s, i, pick);
    if s.workers[i].WTaken? { QueueTaken(s, s'); } else { QueueKept(s, s'); }
  }

  lemma {:induction false} WorkerHistory(s: State, i: nat, pick: nat)
    requires |s.queue| == CAP && History(s) && i < |s.workers|
    requires forall j :: 0 <= j < |s.workers| ==> WorkerOk(s, s.workers[j])
    ensures History(WorkerStep(s, i, pick))
  {
    var s' := WorkerStep(s, i, pick);
    assert WorkerOk(s, s.workers[i]);
    if s.workers[i].WTaken? { HistoryTaken(s, s', i); }
    else if s.workers[i].WRun? { HistoryRan(s, s', i); }
    else { HistoryKept(s, s', i); }
  }

  lemma {:induction false} WorkerWorkers(s: State, i: nat, pick: nat, j: nat)
    requires Queue(s) && Mutex(s) && ClaimsDistinct(s.workers) && i < |s.workers| && j < |s.workers|
    requires forall m :: 0 <= m < |s.runs| ==> s.runs[m] < s.qtail
    requires WorkerOk(s, s.workers[i]) && WorkerOk(s, s.workers[j])
    ensures WorkerOk(WorkerStep(s, i, pick), WorkerStep(s, i, pick).workers[j])
  {
  }

  lemma {:induction false} WorkerClients(s: State, i: nat, pick: nat, j: nat)
    requires Queue(s) && Mutex(s) && i < |s.workers| && j < |s.clients|
    requires WorkerOk(s, s.workers[i]) && ClientOk(s, s.clients[j])
    ensures ClientOk(WorkerStep(s, i, pick), WorkerStep(s, i, pick).clients[j])
  {
  }

  lemma {:induction false} WorkerWorkWakes(s: State, i: nat, pick: nat)
    requires Queue(s) && WorkWakes(s) && i < |s.workers| && WorkerOk(s, s.workers[i])
    ensures WorkWakes(WorkerStep(s, i, pick))
  {
    var s' := WorkerStep(s, i, pick);
    if !Empty(s') && AllAsleepW(s'.workers) {
      assert s'.workers[i].WAsleep? && s.workers[i].WAsleep?;
      assert s'.workers == s.workers;
    }
  }

  lemma {:induction false} WorkerWakeups(s: State, i: nat, pick: nat)
    requires Queue(s) && Wakeups(s) && i < |s.workers| && WorkerOk(s, s.workers[i])
    ensures Wakeups(WorkerStep(s, i, pick))
  {
    var s' := WorkerStep(s, i, pick);
    WorkerWorkWakes(s, i, pick);
    CountUpdate(s.workers, OwesNotFull, i, s'.workers[i]);
    if s.workers[i].WSignal? && SleeperC(s.clients, pick) {
      CountUpdate(s.clients, Enqueuing, pick, s'.clients[pick]);
    }
  }

  lemma {:induction false} WorkerKeepsInv(s: State, i: nat, pick: nat)
    requires Inv(s) && i < |s.workers|
    ensures Inv(WorkerStep(s, i, pick))
  {
    var s' := WorkerStep(s, i, pick);
    assert WorkerOk(s, s.workers[i]);
    WorkerMutex(s, i, pick);
    WorkerQueue(s, i, pick);
    WorkerHistory(s, i, pick);
    WorkerWakeups(s, i, pick);
    forall j | 0 <= j < |s'.workers| ensures WorkerOk(s', s'.workers[j]) { WorkerWorkers(s, i, pick, j); }
    forall j | 0 <= j < |s'.clients| ensures ClientOk(s', s'.clients[j]) { WorkerClients(s, i, pick, j); }
  }

  // ---- Client steps -------------------------------------------------------------------------

  lemma {:induction false} ClientMutex(s: State, i: nat, pick: nat, call: Client)
    requires Mutex(s) && i < |s.clients| && |s.queue| == CAP
    ensures Mutex(ClientStep(s, i, pick, call))
  {
  }

  lemma {:induction false} ClientQueue(s: State, i: nat, pick: nat, call: Client)
    requires Queue(s) && i < |s.clients| && ClientOk(s, s.clients[i])
    ensures Queue(ClientStep(s, i, pick, call))
  {
    var s' := ClientStep(s, i, pick, call);
    if s.clients[i].EStore? {
      forall k | s.qtail <= k < s.qhead ensures k % CAP != s.qhead % CAP { SlotsApart(k, s.qhead); }
    }
  }

  lemma SlotsApart(a: nat, b: nat)
    requires a < b < a + CAP
    ensures a % CAP != b % CAP
  {
  }

  lemma {:induction false} ClientHistory(s: State, i: nat, pick: nat, call: Client)
    requires Queue(s) && History(s) && i < |s.clients|
    ensures History(ClientStep(s, i, pick, call))
  {
    var s' := ClientStep(s, i, pick, call);
    if s.clients[i].ESignal? && SleeperW(s.workers, pick) { HistoryKept(s, s', pick); }
  }

  lemma {:induction false} ClientWorkers(s: State, i: nat, pick: nat, call: Client, j: nat)
    requires Queue(s) && Mutex(s) && i < |s.clients| && j < |s.workers|
    requires ClientOk(s, s.clients[i]) && WorkerOk(s, s.workers[j])
    ensures WorkerOk(ClientStep(s, i, pick, call), ClientStep(s, i, pick, call).workers[j])
  {
  }

  lemma {:induction false} ClientClients(s: State, i: nat, pick: nat, call: Client, j: nat)
    requires Queue(s) && Mutex(s) && i < |s.clients| && j < |s.clients|
    requires ClientOk(s, s.clients[i]) && ClientOk(s, s.clients[j])
    ensures ClientOk(ClientStep(s, i, pick, call), ClientStep(s, i, pick, call).clients[j])
  {
  }

  lemma {:induction false} ClientWorkWakes(s: State, i: nat, pick: nat, call: Client)
    requires Queue(s) && WorkWakes(s) && i < |s.clients|
    ensures WorkWakes(ClientStep(s, i, pick, call))
  {
    var s' := ClientStep(s, i, pick, call);
    assert s.clients[i].ESignal? && SleeperW(s.workers, pick) ==> s'.workers[pick] == WLock;
    if !Empty(s') && AllAsleepW(s'.workers) {
      assert s'.workers[0].WAsleep?;
      if s.clients[i].ESignal? {
        assert s'.clients[i] == ESignal;
      } else if s.clients[i].EBump? {
        assert OwesNotEmpty(s'.clients[i]);
      } else if SomeOwesNotEmpty(s.clients) {
        var c :| 0 <= c < |s.clients| && OwesNotEmpty(s.clients[c]);
        assert OwesNotEmpty(s'.clients[c]);
      }
    }
  }

  lemma {:induction false} ClientWakeups(s: State, i: nat, pick: nat, call: Client)
    requires Queue(s) && Wakeups(s) && i < |s.clients| && ClientOk(s, s.clients[i])
    ensures Wakeups(ClientStep(s, i, pick, call))
  {
    var s' := ClientStep(s, i, pick, call);
    ClientWorkWakes(s, i, pick, call);
    CountUpdate(s.clients, Enqueuing, i, s'.clients[i]);
    if s.clients[i].ESignal? && SleeperW(s.workers, pick) {
      CountUpdate(s.workers, OwesNotFull, pick, s'.workers[pick]);
    }
  }

  lemma {:induction false} ClientKeepsInv(s: State, i: nat, pick: nat, call: Client)
    requires Inv(s) && i < |s.clients|
    ensures Inv(ClientStep(s, i, pick, call))
  {
    var s' := ClientStep(s, i, pick, call);
    assert ClientOk(s, s.clients[i]);
    ClientMutex(s, i, pick, call);
    ClientQueue(s, i, pick, call);
    ClientHistory(s, i, pick, call);
    ClientWakeups(s, i, pick, call);
    forall j | 0 <= j < |s'.workers| ensures WorkerOk(s', s'.workers[j]) { ClientWorkers(s, i, pick, call, j); }
    forall j | 0 <= j < |s'.clients| ensures ClientOk(s', s'.clients[j]) { ClientClients(s, i, pick, call, j); }
  }

  // ---- The destroyer and spurious wake-ups --------------------------------------------------

  /** Waking any set of sleeping workers changes nothing the other parts speak of. */
  ghost predicate Roused(before: seq<Worker>, after: seq<Worker>) {
    |before| == |after| && forall j :: 0 <= j < |before| ==> after[j] == before[j] || (before[j].WAsleep? && after[j].WLock?)
  }

  lemma {:induction false} RousedCounts(before: seq<Worker>, after: seq<Worker>)
    requires Roused(before, after)
    ensures Count(after, Claims) == Count(before, Claims)
    ensures Count(after, Counted) == Count(before, Counted)
    ensures Count(after, OwesNotFull) == Count(before, OwesNotFull)
  {
    if before != [] { RousedCounts(before[..|before| - 1], after[..|after| - 1]); }
  }

  lemma {:induction false} RousedHistory(s: State, workers: seq<Worker>)
    requires History(s) && Roused(s.workers, workers)
    ensures History(s.(workers := workers))
  {
    RousedCounts(s.workers, workers);
  }

  lemma {:induction false} RousedWakeups(s: State, workers: seq<Worker>)
    requires Wakeups(s) && Roused(s.workers, workers)
    ensures Wakeups(s.(workers := workers))
  {
    RousedCounts(s.workers, workers);
    if AllAsleepW(workers) { assert workers == s.workers; }
  }

  lemma {:induction false} RousedInv(s: State, workers: seq<Worker>)
    requires Inv(s) && Roused(s.workers, workers)
    ensures Inv(s.(workers := workers))
  {
    var s' := s.(workers := workers);
    QueueKept(s, s');
    RousedHistory(s, workers);
    RousedWakeups(s, workers);
    forall j | 0 <= j < |workers| ensures WorkerOk(s', workers[j]) { assert WorkerOk(s, s.workers[j]); }
    forall j | 0 <= j < |s.clients| ensures ClientOk(s', s.clients[j]) { assert ClientOk(s, s.clients[j]); }
  }

  /** Steps of the destroyer other than the broadcast. */
  lemma {:induction false} DestroyerMoves(s: State)
    requires Inv(s) && !s.destroyer.DBroadcast?
    ensures Inv(DestroyerStep(s))
  {
    var s' := DestroyerStep(s);
    assert History(s');
    DestroyerThreads(s);
  }

  lemma {:induction false} DestroyerThreads(s: State)
    requires Inv(s) && !s.destroyer.DBroadcast?
    ensures var s' := DestroyerStep(s);
            && (forall j :: 0 <= j < |s'.workers| ==> WorkerOk(s', s'.workers[j]))
            && (forall j :: 0 <= j < |s'.clients| ==> ClientOk(s', s'.clients[j]))
  {
    var s' := DestroyerStep(s);
    forall j | 0 <= j < |s'.workers| ensures WorkerOk(s', s'.workers[j]) { assert WorkerOk(s, s.workers[j]); }
    forall j | 0 <= j < |s'.clients| ensures ClientOk(s', s'.clients[j]) { assert ClientOk(s, s.clients[j]); }
  }

  lemma {:induction false} DestroyerKeepsInv(s: State)
    requires Inv(s)
    ensures Inv(DestroyerStep(s))
  {
    if s.destroyer.DBroadcast? {
      var s' := s.(workers := WakeAllW(s.workers));
      RousedInv(s, s'.workers);
      AfterBroadcast(s');
    } else {
      DestroyerMoves(s);
    }
  }

  lemma {:induction false} AfterBroadcast(s: State)
    requires Inv(s) && s.destroyer.DBroadcast? && NobodyAsleepW(s.workers)
    ensures Inv(s.(destroyer := DJoin))
  {
    var s' := s.(destroyer := DJoin);
    assert !AllAsleepW(s.workers) by { assert !s.workers[0].WAsleep?; }
    forall j | 0 <= j < |s'.workers| ensures WorkerOk(s', s'.workers[j]) { assert WorkerOk(s, s.workers[j]); }
    forall j | 0 <= j < |s'.clients| ensures ClientOk(s', s'.clients[j]) { assert ClientOk(s, s.clients[j]); }
  }

  lemma {:induction false} SpuriousClientInv(s: State, c: nat)
    requires Inv(s)
    ensures Inv(s.(clients := WakeC(s.clients, c)))
  {
    var s' := s.(clients := WakeC(s.clients, c));
    if SleeperC(s.clients, c) {
      CountUpdate(s.clients, Enqueuing, c, s'.clients[c]);
      forall j | 0 <= j < |s'.workers| ensures WorkerOk(s', s'.workers[j]) { assert WorkerOk(s, s.workers[j]); }
      forall j | 0 <= j < |s'.clients| ensures ClientOk(s', s'.clients[j]) { assert ClientOk(s, s.clients[j]); }
      if SomeOwesNotEmpty(s.clients) {
        var d :| 0 <= d < |s.clients| && OwesNotEmpty(s.clients[d]);
        assert OwesNotEmpty(s'.clients[d]);
      }
    }
  }

  // ---- Every run ----------------------------------------------------------------------------

  lemma {:induction false} StepKeepsInv(s: State, a: Action)
    requires Inv(s)
    ensures Inv(Step(s, a))
  {
    match a
    case Work(w, pick) => if w < |s.workers| { WorkerKeepsInv(s, w, pick); }
    case Call(c, pick, call) => if c < |s.clients| { ClientKeepsInv(s, c, pick, call); }
    case Destroy => DestroyerKeepsInv(s);
    case SpuriousW(w) => RousedInv(s, WakeW(s.workers, w));
    case SpuriousC(c) => SpuriousClientInv(s, c);
  }

  lemma {:induction false} InitialInv(s: State)
    requires Initial(s)
    ensures Inv(s)
  {
    CountNone(s.workers, Claims);
    CountNone(s.workers, Counted);
  }

  /** The state after any schedule of the threads of a new pool. */
  function Run(s0: State, actions: seq<Action>): (r: State)
    requires Initial(s0)
    ensures Inv(r)
  {
    InitialInv(s0);
    if actions == [] then s0
    else
      var t := Run(s0, actions[..|actions| - 1]);
      StepKeepsInv(t, actions[|actions| - 1]);
      Step(t, actions[|actions| - 1])
  }

  /** Mutual exclusion in every run. */
  lemma {:induction false} MutualExclusion(s0: State, actions: seq<Action>, i: nat, j: nat)
    requires Initial(s0)
    ensures var s := Run(s0, actions);
            && (i < j < |s.workers| ==> !(WCritical(s.workers[i]) && WCritical(s.workers[j])))
            && (i < |s.workers| && j < |s.clients| ==> !(WCritical(s.workers[i]) && CCritical(s.clients[j])))
            && (i < j < |s.clients| ==> !(CCritical(s.clients[i]) && CCritical(s.clients[j])))
            && (i < |s.workers| ==> !(WCritical(s.workers[i]) && DCritical(s.destroyer)))
            && (j < |s.clients| ==> !(CCritical(s.clients[j]) && DCritical(s.destroyer)))
  {
    var s := Run(s0, actions);
    assert Mutex(s);
  }

  /** Nothing is lost or duplicated; tasks leave the queue in the order they were accepted; at most 4096 wait in it. */
  lemma {:induction false} Conservation(s0: State, actions: seq<Action>)
    requires Initial(s0)
    ensures var s := Run(s0, actions);
            && |s.accepted| == (s.qhead - s.qtail) + Count(s.workers, Claims) + |s.runs|
            && s.taken <= s.accepted && |s.taken| == s.qtail
            && 0 <= s.qhead - s.qtail <= CAP
            && Distinct(s.runs) && |s.ranTasks| == |s.runs|
            && (forall j :: 0 <= j < |s.runs| ==> s.runs[j] < |s.accepted| && s.ranTasks[j] == s.accepted[s.runs[j]])
            && (s.owner.Nobody? ==> Count(s.workers, Claims) <= s.active)
  {
    var s := Run(s0, actions);
    if s.owner.Nobody? {
      assert forall i :: 0 <= i < |s.workers| && Claims(s.workers[i]) ==> !WCritical(s.workers[i]);
      CountMono(s.workers, Claims, Counted);
    }
  }

  /** Every accepted task has run, each exactly once. */
  ghost predicate AllRanOnce(s: State) {
    && Distinct(s.runs) && |s.runs| == |s.accepted| == |s.ranTasks|
    && (forall k :: 0 <= k < |s.accepted| ==> k in s.runs)
    && (forall j :: 0 <= j < |s.runs| ==> s.runs[j] < |s.accepted| && s.ranTasks[j] == s.accepted[s.runs[j]])
  }

  lemma {:induction false} NoClaimsAllRan(s: State)
    requires Inv(s) && Empty(s) && Count(s.workers, Claims) == 0
    ensures AllRanOnce(s)
  {
    var r: seq<int> := seq(|s.runs|, j requires 0 <= j < |s.runs| => s.runs[j]);
    Pigeonhole(r, |s.accepted|);
    forall k | 0 <= k < |s.accepted| ensures k in s.runs {
      assert k in r;
      var j :| 0 <= j < |r| && r[j] == k;
      assert s.runs[j] == k;
    }
  }

  lemma {:induction false} IdleAllRan(s: State, c: nat, pick: nat, call: Client)
    requires Inv(s) && c < |s.clients| && s.clients[c].QTest?
    requires ClientGoes(s, QTest, pick, call).QDone?
    ensures AllRanOnce(s)
  {
    assert s.owner == ByClient(c);
    assert forall i :: 0 <= i < |s.workers| && Claims(s.workers[i]) ==> !WCritical(s.workers[i]);
    CountMono(s.workers, Claims, Counted);
    NoClaimsAllRan(s);
  }

  /** In every run, wait leaves its loop only in a state where every task accepted so far has run. */
  lemma {:induction false} WaitReturnsWhenIdle(s0: State, actions: seq<Action>, c: nat, pick: nat, call: Client)
    requires Initial(s0)
    ensures var s := Run(s0, actions);
            c < |s.clients| && s.clients[c].QTest? && ClientGoes(s, QTest, pick, call).QDone? ==> AllRanOnce(s)
  {
    var s := Run(s0, actions);
    if c < |s.clients| && s.clients[c].QTest? && ClientGoes(s, QTest, pick, call).QDone? { IdleAllRan(s, c, pick, call); }
  }

  /** In every run, once all workers have exited (so when destroy returns) every accepted task has run exactly once. */
  lemma {:induction false} ShutdownDrains(s0: State, actions: seq<Action>)
    requires Initial(s0)
    ensures var s := Run(s0, actions);
            (forall i :: 0 <= i < |s.workers| ==> s.workers[i].WExited?) ==> AllRanOnce(s) && !s.running
  {
    var s := Run(s0, actions);
    if forall i :: 0 <= i < |s.workers| ==> s.workers[i].WExited? {
      assert WorkerOk(s, s.workers[0]);
      CountNone(s.workers, Claims);
      NoClaimsAllRan(s);
    }
  }

  /**
    * No wake-up is lost, in any state of any run: queued work with all workers asleep has a wake-up
    * still to come; after the shutdown broadcast nobody sleeps; and while the pool runs, room in the
    * queue with a producer asleep means another producer is awake or a signal is pending.
    */
  lemma {:induction false} NoLostWakeups(s0: State, actions: seq<Action>)
    requires Initial(s0)
    ensures var s := Run(s0, actions);
            WorkWakes(s) && ShutdownWakes(s)
            && (s.running && !Full(s) && !NobodyAsleepC(s.clients) ==>
                  (exists c :: 0 <= c < |s.clients| && Enqueuing(s.clients[c]))
                  || (exists w :: 0 <= w < |s.workers| && OwesNotFull(s.workers[w])))
  {
    var s := Run(s0, actions);
    CountNone(s.clients, Enqueuing);
    CountNone(s.workers, OwesNotFull);
  }

  // ---- Progress of a thread left alone ------------------------------------------------------

  /** n moves of the same thread while the others stand still. */
  function Alone(s: State, a: Action, n: nat): State
    requires |s.queue| == CAP
    decreases n
  {
    if n == 0 then s else Alone(Step(s, a), a, n - 1)
  }

  lemma {:induction false} AloneAgain(s: State, a: Action, m: nat, n: nat)
    requires |s.queue| == CAP
    ensures |Alone(s, a, m).queue| == CAP && Alone(Alone(s, a, m), a, n) == Alone(s, a, m + n)
    decreases m
  {
    if m > 0 { AloneAgain(Step(s, a), a, m - 1, n); }
  }

  lemma {:induction false} ThreeMoves(s: State, a: Action, s1: State, s2: State, s3: State)
    requires |s.queue| == |s1.queue| == |s2.queue| == CAP && s1 == Step(s, a) && s2 == Step(s1, a) && s3 == Step(s2, a)
    ensures Alone(s, a, 3) == s3
  {
    assert |s3.queue| == CAP;
    assert Alone(s3, a, 0) == s3;
    assert Alone(s2, a, 1) == s3;
    assert Alone(s1, a, 2) == s3;
  }

  /** s with worker w somewhere else. */
  function WorkerAt(s: State, w: nat, x: Worker): State
    requires w < |s.workers|
  {
    s.(workers := s.workers[w := x])
  }

  lemma {:induction false} MovedOn(s: State, w: nat, x: Worker, y: Worker)
    requires w < |s.workers|
    ensures WorkerAt(WorkerAt(s, w, x), w, y) == WorkerAt(s, w, y)
  {
    assert s.workers[w := x][w := y] == s.workers[w := y];
  }

  /** With the mutex free and a job queued, three moves bring a worker to it. */
  lemma {:induction false} ReachesJob(s: State, w: nat, pick: nat)
    requires |s.queue| == CAP && w < |s.workers| && s.workers[w] == WLock && s.owner.Nobody? && s.qtail < s.qhead
    ensures Alone(s, Work(w, pick), 3) == WorkerAt(s.(owner := ByWorker(w)), w, WTake)
  {
    var held := s.(owner := ByWorker(w));
    MovedOn(held, w, WTest, WLeave);
    MovedOn(held, w, WLeave, WTake);
    ThreeMoves(s, Work(w, pick), WorkerAt(held, w, WTest), WorkerAt(held, w, WLeave), WorkerAt(held, w, WTake));
  }

  /** Three moves take the job at the tail and count it. */
  lemma {:induction false} TakesJob(s: State, w: nat, pick: nat)
    requires |s.queue| == CAP && w < |s.workers| && s.workers[w] == WTake
    ensures var job, k := s.queue[s.qtail % CAP], s.qtail;
            Alone(s, Work(w, pick), 3)
            == WorkerAt(s.(qtail := s.qtail + 1, taken := s.taken + [job], active := s.active + 1), w, WUnlock(job, k))
  {
    var job, k := s.queue[s.qtail % CAP], s.qtail;
    var off := s.(qtail := s.qtail + 1, taken := s.taken + [job]);
    var counted := off.(active := s.active + 1);
    MovedOn(s, w, WTaken(job, k), WCounted(job, k));
    MovedOn(off, w, WTaken(job, k), WCounted(job, k));
    MovedOn(counted, w, WCounted(job, k), WUnlock(job, k));
    ThreeMoves(s, Work(w, pick), WorkerAt(s, w, WTaken(job, k)), WorkerAt(off, w, WCounted(job, k)), WorkerAt(counted, w, WUnlock(job, k)));
  }

  /** Three moves release the mutex, signal, and run the job. */
  lemma {:induction false} RunsJob(s: State, w: nat, pick: nat, job: Task, k: nat)
    requires |s.queue| == CAP && w < |s.workers| && s.workers[w] == WUnlock(job, k) && CanSignalC(s, pick)
    ensures Alone(s, Work(w, pick), 3)
         == WorkerAt(s.(owner := Nobody, clients := WakeC(s.clients, pick), runs := s.runs + [k], ranTasks := s.ranTasks + [job]), w, WRelock)
  {
    var free := s.(owner := Nobody);
    var told := free.(clients := WakeC(s.clients, pick));
    var ran := told.(runs := s.runs + [k], ranTasks := s.ranTasks + [job]);
    MovedOn(told, w, WSignal(job, k), WRun(job, k));
    MovedOn(ran, w, WRun(job, k), WRelock);
    ThreeMoves(s, Work(w, pick), WorkerAt(free, w, WSignal(job, k)), WorkerAt(told, w, WRun(job, k)), WorkerAt(ran, w, WRelock));
  }

  /** Three moves bring a worker that is done back to the top of its loop. */
  lemma {:induction false} ReturnsToTop(s: State, w: nat, pick: nat)
    requires |s.queue| == CAP && w < |s.workers| && s.workers[w] == WRelock && s.owner.Nobody?
    ensures Alone(s, Work(w, pick), 3) == WorkerAt(s.(active := s.active - 1), w, WLock)
  {
    var held := s.(owner := ByWorker(w));
    var dropped := held.(active := s.active - 1);
    MovedOn(dropped, w, WDrop, WRelease);
    MovedOn(dropped.(owner := Nobody), w, WRelease, WLock);
    assert dropped.(owner := Nobody) == s.(active := s.active - 1);
    ThreeMoves(s, Work(w, pick), WorkerAt(held, w, WDrop), WorkerAt(dropped, w, WRelease), WorkerAt(dropped.(owner := Nobody), w, WLock));
  }

  /** The pool after worker w has run `job`, taken at the tail of the queue, and stands at its relock. */
  function JobRun(s: State, w: nat, pick: nat, job: Task): State
    requires w < |s.workers|
  {
    WorkerAt(s.(qtail := s.qtail + 1, taken := s.taken + [job], active := s.active + 1, clients := WakeC(s.clients, pick),
                runs := s.runs + [s.qtail], ranTasks := s.ranTasks + [job]), w, WRelock)
  }

  lemma {:induction false} SixMoves(s: State, w: nat, pick: nat, job: Task)
    requires |s.queue| == CAP && w < |s.workers| && s.workers[w] == WLock && s.owner.Nobody? && s.qtail < s.qhead
    requires s.queue[s.qtail % CAP] == job
    ensures Alone(s, Work(w, pick), 6)
         == WorkerAt(s.(owner := ByWorker(w), qtail := s.qtail + 1, taken := s.taken + [job], active := s.active + 1),
                     w, WUnlock(job, s.qtail))
  {
    ReachesJob(s, w, pick);
    var held := s.(owner := ByWorker(w));
    TakesJob(WorkerAt(held, w, WTake), w, pick);
    MovedOn(held.(qtail := s.qtail + 1, taken := s.taken + [job], active := s.active + 1), w, WTake, WUnlock(job, s.qtail));
    AloneAgain(s, Work(w, pick), 3, 3);
  }

  lemma {:induction false} NineMoves(s: State, w: nat, pick: nat, job: Task)
    requires |s.queue| == CAP && w < |s.workers| && s.workers[w] == WLock && s.owner.Nobody? && s.qtail < s.qhead
    requires s.queue[s.qtail % CAP] == job && CanSignalC(s, pick)
    ensures Alone(s, Work(w, pick), 9) == JobRun(s, w, pick, job)
  {
    SixMoves(s, w, pick, job);
    var took := s.(owner := ByWorker(w), qtail := s.qtail + 1, taken := s.taken + [job], active := s.active + 1);
    RunsJob(WorkerAt(took, w, WUnlock(job, s.qtail)), w, pick, job, s.qtail);
    var ran := took.(owner := Nobody, clients := WakeC(s.clients, pick), runs := s.runs + [s.qtail], ranTasks := s.ranTasks + [job]);
    MovedOn(ran, w, WUnlock(job, s.qtail), WRelock);
    AloneAgain(s, Work(w, pick), 6, 3);
  }

  lemma {:induction false} TwelveMoves(s: State, w: nat, pick: nat, job: Task)
    requires |s.queue| == CAP && w < |s.workers| && s.owner.Nobody?
    requires Alone(s, Work(w, pick), 9) == JobRun(s, w, pick, job)
    ensures Alone(s, Work(w, pick), 12) == WorkerAt(JobRun(s, w, pick, job).(active := s.active), w, WLock)
  {
    ReturnsToTop(JobRun(s, w, pick, job), w, pick);
    AloneAgain(s, Work(w, pick), 9, 3);
  }

  /**
    * A worker that finds the mutex free and a job queued runs the oldest accepted job that is not taken, within nine of
    * its moves, and is back at the top of its loop, counted out, after twelve.
    */
  lemma {:induction false} WorkerProgress(s: State, w: nat, pick: nat)
    requires Inv(s) && w < |s.workers| && s.workers[w] == WLock && s.owner.Nobody? && s.qtail < s.qhead && CanSignalC(s, pick)
    ensures Alone(s, Work(w, pick), 9) == JobRun(s, w, pick, s.accepted[s.qtail])
    ensures Alone(s, Work(w, pick), 12) == WorkerAt(JobRun(s, w, pick, s.accepted[s.qtail]).(active := s.active), w, WLock)
  {
    var job := s.accepted[s.qtail];
    assert s.queue[s.qtail % CAP] == job;
    NineMoves(s, w, pick, job);
    TwelveMoves(s, w, pick, job);
  }

  /** The moves of a schedule one after the other, from any state. */
  function After(s: State, moves: seq<Action>): (r: State)
    requires |s.queue| == CAP
    ensures |r.queue| == CAP
    decreases |moves|
  {
    if moves == [] then s else After(Step(s, moves[0]), moves[1..])
  }

  /** n moves of one thread, then a schedule. */
  lemma {:induction false} AfterAlone(s: State, a: Action, n: nat, rest: seq<Action>)
    requires |s.queue| == CAP
    ensures |Alone(s, a, n).queue| == CAP
    ensures After(s, seq(n, i => a) + rest) == After(Alone(s, a, n), rest)
    decreases n
  {
    var moves := seq(n, i => a) + rest;
    if n == 0 {
      assert moves == rest;
    } else {
      assert moves[1..] == seq(n - 1, i => a) + rest;
      AfterAlone(Step(s, a), a, n - 1, rest);
    }
  }

  lemma {:induction false} AloneKeepsInv(s: State, a: Action, n: nat)
    requires Inv(s)
    ensures Inv(Alone(s, a, n))
    decreases n
  {
    if n > 0 {
      StepKeepsInv(s, a);
      AloneKeepsInv(Step(s, a), a, n - 1);
    }
  }

  /** The moves are worker w's, and lead from s to s' with every queued job run in acceptance order. */
  ghost predicate Drained(s: State, w: nat, moves: seq<Action>, s': State) {
    && (forall i :: 0 <= i < |moves| ==> moves[i].Work? && moves[i].w == w)
    && |moves| == 12 * (s.qhead - s.qtail) && s.qtail <= |s.accepted|
    && Empty(s') && s'.accepted == s.accepted && s'.ranTasks == s.ranTasks + s.accepted[s.qtail..]
    && s'.active == s.active && s'.owner.Nobody? && s'.workers == s.workers
  }

  /** s1 is s with the job at the tail of the queue run and nothing else changed that `Drained` speaks of. */
  ghost predicate RanOne(s: State, s1: State) {
    && s1.workers == s.workers && s1.owner.Nobody? && s1.qhead == s.qhead && s1.qtail == s.qtail + 1 && s1.accepted == s.accepted
    && s1.active == s.active && s.qtail < |s.accepted| && s1.ranTasks == s.ranTasks + [s.accepted[s.qtail]]
  }

  lemma {:induction false} DrainedOn(s: State, w: nat, first: seq<Action>, s1: State, rest: seq<Action>, s': State)
    requires RanOne(s, s1) && Drained(s1, w, rest, s')
    requires |first| == 12 && forall i :: 0 <= i < |first| ==> first[i].Work? && first[i].w == w
    ensures Drained(s, w, first + rest, s')
  {
    assert s.accepted[s.qtail..] == [s.accepted[s.qtail]] + s.accepted[s.qtail + 1..];
  }

  /** One job of the queue: whom to signal, and the twelve moves that run it. */
  lemma {:induction false} OneRound(s: State, w: nat) returns (pick: nat)
    requires Inv(s) && w < |s.workers| && s.workers[w] == WLock && s.owner.Nobody? && s.qtail < s.qhead
    ensures RanOne(s, Alone(s, Work(w, pick), 12))
  {
    pick := 0;
    if !NobodyAsleepC(s.clients) { pick :| 0 <= pick < |s.clients| && s.clients[pick].EAsleep?; }
    WorkerProgress(s, w, pick);
  }

  /**
    * No accepted job is stuck: in every state a run can reach, a worker that stands at the top of its loop with the mutex
    * free has a schedule of its moves alone that runs every queued job, in acceptance order, twelve moves each.
    */
  lemma {:induction false} WorkerDrains(s: State, w: nat) returns (moves: seq<Action>)
    requires Inv(s) && w < |s.workers| && s.workers[w] == WLock && s.owner.Nobody?
    ensures Drained(s, w, moves, After(s, moves))
    decreases s.qhead - s.qtail
  {
    if s.qhead == s.qtail {
      moves := [];
    } else {
      var n := 12;
      var pick := OneRound(s, w);
      var a := Work(w, pick);
      AloneKeepsInv(s, a, n);
      var rest := WorkerDrains(Alone(s, a, n), w);
      AfterAlone(s, a, n, rest);
      moves := seq(n, i => a) + rest;
      DrainedOn(s, w, seq(n, i => a), Alone(s, a, n), rest, After(s, moves));
    }
  }

  /** Without work and with the pool running it goes to sleep; without work and with the pool stopped it leaves. */
  lemma {:induction false} IdleWorkerProgress(s: State, w: nat, pick: nat)
    requires |s.queue| == CAP && w < |s.workers| && s.workers[w] == WLock && s.owner.Nobody? && Empty(s)
    ensures s.running ==> Alone(s, Work(w, pick), 3) == WorkerAt(s, w, WAsleep)
    ensures !s.running ==> Alone(s, Work(w, pick), 4) == WorkerAt(s, w, WExited)
  {
    var a, held := Work(w, pick), s.(owner := ByWorker(w));
    MovedOn(held, w, WTest, WWait);
    MovedOn(s, w, WWait, WAsleep);
    MovedOn(held, w, WTest, WLeave);
    MovedOn(held, w, WLeave, WQuit);
    if s.running {
      assert held.(owner := Nobody) == s;
      ThreeMoves(s, a, WorkerAt(held, w, WTest), WorkerAt(held, w, WWait), WorkerAt(s, w, WAsleep));
    } else {
      ThreeMoves(s, a, WorkerAt(held, w, WTest), WorkerAt(held, w, WLeave), WorkerAt(held, w, WQuit));
      MovedOn(s, w, WQuit, WExited);
      assert held.(owner := Nobody) == s;
      AloneAgain(s, a, 3, 1);
      assert Alone(Step(Alone(s, a, 3), a), a, 0) == Step(Alone(s, a, 3), a);
    }
  }

  /** s with client c somewhere else. */
  function ClientAt(s: State, c: nat, x: Client): State
    requires c < |s.clients|
  {
    s.(clients := s.clients[c := x])
  }

  lemma {:induction false} ClientMovedOn(s: State, c: nat, x: Client, y: Client)
    requires c < |s.clients|
    ensures ClientAt(ClientAt(s, c, x), c, y) == ClientAt(s, c, y)
  {
    assert s.clients[c := x][c := y] == s.clients[c := y];
  }

  lemma {:induction false} ReachesStore(s: State, c: nat, pick: nat, call: Client, job: Task)
    requires |s.queue| == CAP && c < |s.clients| && s.clients[c] == ELock(job) && s.owner.Nobody? && s.running && !Full(s)
    ensures Alone(s, Call(c, pick, call), 3) == ClientAt(s.(owner := ByClient(c)), c, EStore(job))
  {
    var held := s.(owner := ByClient(c));
    ClientMovedOn(held, c, ETest(job), ECheck(job));
    ClientMovedOn(held, c, ECheck(job), EStore(job));
    ThreeMoves(s, Call(c, pick, call), ClientAt(held, c, ETest(job)), ClientAt(held, c, ECheck(job)), ClientAt(held, c, EStore(job)));
  }

  lemma {:induction false} StoresJob(s: State, c: nat, pick: nat, call: Client, job: Task)
    requires |s.queue| == CAP && c < |s.clients| && s.clients[c] == EStore(job)
    ensures Alone(s, Call(c, pick, call), 3)
         == ClientAt(s.(owner := Nobody, queue := s.queue[s.qhead % CAP := job], qhead := s.qhead + 1, accepted := s.accepted + [job]),
                     c, ESignal)
  {
    var stored := s.(queue := s.queue[s.qhead % CAP := job]);
    var bumped := stored.(qhead := s.qhead + 1, accepted := s.accepted + [job]);
    var free := bumped.(owner := Nobody);
    ClientMovedOn(bumped, c, EBump(job), EUnlock);
    ClientMovedOn(free, c, EUnlock, ESignal);
    ThreeMoves(s, Call(c, pick, call), ClientAt(stored, c, EBump(job)), ClientAt(bumped, c, EUnlock), ClientAt(free, c, ESignal));
  }

  /** A signal wakes the sleeper of the scheduler's choice and ends the call. */
  lemma {:induction false} SignalsWork(s: State, c: nat, pick: nat, call: Client)
    requires |s.queue| == CAP && c < |s.clients| && s.clients[c] == ESignal && CanSignalW(s, pick)
    ensures Alone(s, Call(c, pick, call), 1) == ClientAt(s.(workers := WakeW(s.workers, pick)), c, Idle)
  {
    var a := Call(c, pick, call);
    assert Alone(Step(s, a), a, 0) == Step(s, a);
  }

  /**
    * An enqueue that finds the mutex free, the pool running and room in the queue appends its job to the accepted ones and
    * returns after seven moves, having woken a sleeping worker if there is one.
    */
  lemma {:induction false} EnqueueProgress(s: State, c: nat, pick: nat, call: Client, job: Task)
    requires |s.queue| == CAP && c < |s.clients| && s.clients[c] == ELock(job) && s.owner.Nobody?
    requires s.running && s.qhead - s.qtail < 4096 && CanSignalW(s, pick)
    ensures Alone(s, Call(c, pick, call), 7)
         == ClientAt(s.(queue := s.queue[s.qhead % CAP := job], qhead := s.qhead + 1, accepted := s.accepted + [job],
                        workers := WakeW(s.workers, pick)), c, Idle)
  {
    var a := Call(c, pick, call);
    ReachesStore(s, c, pick, call, job);
    var at := Alone(s, a, 3);
    StoresJob(at, c, pick, call, job);
    var told := Alone(at, a, 3);
    SignalsWork(told, c, pick, call);
    var done := Alone(told, a, 1);
    assert done.clients == s.clients[c := Idle];
    AloneAgain(s, a, 3, 3);
    AloneAgain(s, a, 6, 1);
  }

  /** Once the pool is stopped an enqueue is refused after four moves, and nothing is accepted. */
  lemma {:induction false} EnqueueRefused(s: State, c: nat, pick: nat, call: Client, job: Task)
    requires |s.queue| == CAP && c < |s.clients| && s.clients[c] == ELock(job) && s.owner.Nobody? && !s.running
    ensures Alone(s, Call(c, pick, call), 4) == ClientAt(s, c, Idle)
  {
    var a, held := Call(c, pick, call), s.(owner := ByClient(c));
    ClientMovedOn(held, c, ETest(job), ECheck(job));
    ClientMovedOn(held, c, ECheck(job), EReject);
    ClientMovedOn(s, c, EReject, Idle);
    assert held.(owner := Nobody) == s;
    ThreeMoves(s, a, ClientAt(held, c, ETest(job)), ClientAt(held, c, ECheck(job)), ClientAt(held, c, EReject));
    AloneAgain(s, a, 3, 1);
    assert Alone(Step(Alone(s, a, 3), a), a, 0) == Step(Alone(s, a, 3), a);
  }

  /** A full queue puts an enqueue to sleep after three moves. */
  lemma {:induction false} EnqueueSleeps(s: State, c: nat, pick: nat, call: Client, job: Task)
    requires |s.queue| == CAP && c < |s.clients| && s.clients[c] == ELock(job) && s.owner.Nobody? && s.running && s.qhead - s.qtail >= 4096
    ensures Alone(s, Call(c, pick, call), 3) == ClientAt(s, c, EAsleep(job))
  {
    var held := s.(owner := ByClient(c));
    ClientMovedOn(held, c, ETest(job), EWait(job));
    ClientMovedOn(s, c, EWait(job), EAsleep(job));
    assert held.(owner := Nobody) == s;
    ThreeMoves(s, Call(c, pick, call), ClientAt(held, c, ETest(job)), ClientAt(held, c, EWait(job)), ClientAt(s, c, EAsleep(job)));
  }

  /** A wait on an idle pool returns after three moves; on a busy one it is back at its lock, the mutex free. */
  lemma {:induction false} WaitProgress(s: State, c: nat, pick: nat, call: Client)
    requires |s.queue| == CAP && c < |s.clients| && s.clients[c] == QLock && s.owner.Nobody?
    ensures Alone(s, Call(c, pick, call), 3) == ClientAt(s, c, if Empty(s) && s.active <= 0 then Idle else QLock)
  {
    var held, x := s.(owner := ByClient(c)), if Empty(s) && s.active <= 0 then QDone else QYield;
    var y := if Empty(s) && s.active <= 0 then Idle else QLock;
    ClientMovedOn(held, c, QTest, x);
    ClientMovedOn(s, c, x, y);
    assert held.(owner := Nobody) == s;
    ThreeMoves(s, Call(c, pick, call), ClientAt(held, c, QTest), ClientAt(held, c, x), ClientAt(s, c, y));
  }

  /** A caller with nothing under way that calls enqueue, or wait, on a pool with the mutex free: the whole call. */
  lemma {:induction false} WholeCalls(s: State, c: nat, pick: nat, job: Task)
    requires |s.queue| == CAP && c < |s.clients| && s.clients[c] == Idle && s.owner.Nobody? && CanSignalW(s, pick)
    ensures s.running && s.qhead - s.qtail < 4096 ==>
              Alone(s, Call(c, pick, ELock(job)), 8)
              == ClientAt(s.(queue := s.queue[s.qhead % CAP := job], qhead := s.qhead + 1, accepted := s.accepted + [job],
                             workers := WakeW(s.workers, pick)), c, Idle)
    ensures !s.running ==> Alone(s, Call(c, pick, ELock(job)), 5) == s
    ensures Empty(s) && s.active <= 0 ==> Alone(s, Call(c, pick, QLock), 4) == s
  {
    assert s.clients[c := Idle] == s.clients;
    var e, q := Call(c, pick, ELock(job)), Call(c, pick, QLock);
    var locking, waiting := ClientAt(s, c, ELock(job)), ClientAt(s, c, QLock);
    assert locking == Step(s, e) && waiting == Step(s, q);
    ClientMovedOn(s, c, QLock, Idle);
    WaitProgress(waiting, c, pick, QLock);
    ClientMovedOn(s, c, ELock(job), Idle);
    if !s.running {
      EnqueueRefused(locking, c, pick, ELock(job), job);
    } else if s.qhead - s.qtail < 4096 {
      var done := s.(queue := s.queue[s.qhead % CAP := job], qhead := s.qhead + 1, accepted := s.accepted + [job],
                     workers := WakeW(s.workers, pick));
      EnqueueProgress(locking, c, pick, ELock(job), job);
      ClientMovedOn(done, c, ELock(job), Idle);
    }
  }

  /** A shutdown that finds the mutex free clears the flag, wakes every sleeper and comes to its join, in five moves. */
  lemma {:induction false} ShutdownProgress(s: State)
    requires |s.queue| == CAP && s.destroyer.DIdle? && s.owner.Nobody?
    ensures Alone(s, Destroy, 5) == s.(destroyer := DJoin, running := false, workers := WakeAllW(s.workers))
  {
    var s0 := s.(destroyer := DLock);
    var s1 := s.(destroyer := DSet, owner := ByDestroyer);
    var s2 := s1.(destroyer := DUnlock, running := false);
    var s3 := s2.(destroyer := DBroadcast, owner := Nobody);
    ThreeMoves(s, Destroy, s0, s1, s2);
    assert Alone(Step(s3, Destroy), Destroy, 0) == Step(s3, Destroy);
    assert Alone(s2, Destroy, 2) == Step(s3, Destroy);
    AloneAgain(s, Destroy, 3, 2);
  }

  predicate Alive(w: Worker) { !w.WExited? }

  /** The join goes on exactly when every worker has left. */
  lemma {:induction false} JoinReturnsIff(s: State)
    requires s.destroyer.DJoin? && |s.queue| == CAP
    ensures Step(s, Destroy) == if Count(s.workers, Alive) == 0 then s.(destroyer := DDone) else s
  {
    CountNone(s.workers, Alive);
  }
}
