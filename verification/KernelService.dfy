// Requests to the kernel's service processes, as interleaved steps of requesters, servers and
// the scheduler (kernel/KernelService.cpp, process/ProcessManager.cpp).
module KernelServices {
  const NO_PROCESS := -1

  // Where a process stands: it has queued a request, waits for the service, was resumed.
  datatype Phase = Running | Posted(r: nat) | Waiting(r: nat) | Resumed(r: nat)

  datatype Server = Idle | Popped(r: nat) | Executed(r: nat) | Waking(owner: int)

  // `runs` counts executions; a deleted request is no longer live.
  datatype Request = Request(owner: int, runs: nat, live: bool)

  // The flag of a process is its kernelServiceComplete. Requests made in kernel mode have no
  // waiting process; they are held until their maker deletes them.
  datatype System = System(phase: map<int, Phase>, flag: map<int, bool>, queue: seq<nat>,
                           server: map<int, Server>, requests: seq<Request>, kernelHeld: set<nat>)

  datatype Step = Post(p: int) | Wait(p: int) | Resume(p: int) | Collect(p: int)
                | Pop(k: int) | Execute(k: int) | ReadOwner(k: int) | Wake(k: int)
                | PostKernel | CollectKernel(held: nat)

  predicate Enabled(s: System, step: Step) {
    match step
    case Post(p) => p in s.phase && s.phase[p].Running?
    case Wait(p) => p in s.phase && s.phase[p].Posted?
    case Resume(p) => p in s.phase && s.phase[p].Waiting? && p in s.flag && s.flag[p]
    case Collect(p) => p in s.phase && s.phase[p].Resumed? && s.phase[p].r < |s.requests|
    case Pop(k) => k in s.server && s.server[k].Idle? && s.queue != []
    case Execute(k) => k in s.server && s.server[k].Popped? && s.server[k].r < |s.requests|
    case ReadOwner(k) => k in s.server && s.server[k].Executed? && s.server[k].r < |s.requests|
    case Wake(k) => k in s.server && s.server[k].Waking?
    case PostKernel => true
    case CollectKernel(r) => r in s.kernelHeld && r < |s.requests|
  }

  function Next(s: System, step: Step): System
    requires Enabled(s, step)
  {
    match step
    // A request remembers who made it and joins the queue.
    case Post(p) =>
      s.(requests := s.requests + [Request(p, 0, true)], queue := s.queue + [|s.requests|],
            phase := s.phase[p := Posted(|s.requests|)])
    // WaitOnKernelService clears the flag and gives up the processor.
    case Wait(p) =>
      s.(flag := s.flag[p := false], phase := s.phase[p := Waiting(s.phase[p].r)])
    // The scheduler finds the flag set, clears it and lets the process run on.
    case Resume(p) =>
      s.(flag := s.flag[p := false], phase := s.phase[p := Resumed(s.phase[p].r)])
    // The process reads the result and deletes the request.
    case Collect(p) =>
      var r := s.phase[p].r;
      s.(requests := s.requests[r := s.requests[r].(live := false)], phase := s.phase[p := Running])
    case Pop(k) =>
      s.(queue := s.queue[1..], server := s.server[k := Popped(s.queue[0])])
    case Execute(k) =>
      var r := s.server[k].r;
      s.(requests := s.requests[r := s.requests[r].(runs := s.requests[r].runs + 1)],
            server := s.server[k := Executed(r)])
    case ReadOwner(k) =>
      s.(server := s.server[k := Waking(s.requests[s.server[k].r].owner)])
    // WakeUpFromKSWait sets the flag if the process exists.
    case Wake(k) =>
      var p := s.server[k].owner;
      s.(flag := if p in s.phase then s.flag[p := true] else s.flag, server := s.server[k := Idle])
    // In kernel mode the request has no owner and the wait returns at once.
    case PostKernel =>
      s.(requests := s.requests + [Request(NO_PROCESS, 0, true)], queue := s.queue + [|s.requests|],
            kernelHeld := s.kernelHeld + {|s.requests|})
    case CollectKernel(r) =>
      s.(requests := s.requests[r := s.requests[r].(live := false)], kernelHeld := s.kernelHeld - {r})
  }

  // What these mean for whoever takes the step: when it is possible, and all that it changes.
  lemma StepLaw(s: System, step: Step)
    ensures match step
            case Post(p) => Enabled(s, step) <==> p in s.phase && s.phase[p] == Running
            case Wait(p) => Enabled(s, step) <==> p in s.phase && s.phase[p].Posted?
            case Resume(p) => Enabled(s, step) <==> p in s.phase && s.phase[p].Waiting? && p in s.flag && s.flag[p]
            case Collect(p) => Enabled(s, step) <==> p in s.phase && s.phase[p].Resumed? && s.phase[p].r < |s.requests|
            case Pop(k) => Enabled(s, step) <==> k in s.server && s.server[k] == Idle && |s.queue| > 0
            case Execute(k) =>
              Enabled(s, step) <==> k in s.server && s.server[k].Popped? && s.server[k].r < |s.requests|
            case ReadOwner(k) =>
              Enabled(s, step) <==> k in s.server && s.server[k].Executed? && s.server[k].r < |s.requests|
            case Wake(k) => Enabled(s, step) <==> k in s.server && s.server[k].Waking?
            case PostKernel => Enabled(s, step)
            case CollectKernel(r) => Enabled(s, step) <==> r in s.kernelHeld && r < |s.requests|
    ensures Enabled(s, step) ==>
              var s' := Next(s, step);
              // Only the process or the server that takes the step moves on.
              && s'.phase.Keys == s.phase.Keys && s'.server.Keys == s.server.Keys
              && (forall p :: p in s.phase
                              && (step.Post? || step.Wait? || step.Resume? || step.Collect? ==> p != step.p) ==>
                    s'.phase[p] == s.phase[p])
              && (forall k :: k in s.server
                              && (step.Pop? || step.Execute? || step.ReadOwner? || step.Wake? ==> k != step.k) ==>
                    s'.server[k] == s.server[k])
              // Requests are added behind the others, and only deletion and execution change one.
              && |s.requests| <= |s'.requests| && (!step.Post? && !step.PostKernel? ==> |s'.requests| == |s.requests|)
              && (forall r :: 0 <= r < |s.requests| ==>
                    && s'.requests[r].owner == s.requests[r].owner
                    && (s'.requests[r].live <==> s.requests[r].live && !(step.Collect? && r == s.phase[step.p].r)
                                                 && !(step.CollectKernel? && r == step.held))
                    && s'.requests[r].runs == s.requests[r].runs
                                              + if step.Execute? && r == s.server[step.k].r then 1 else 0)
              // The queue is first in, first out.
              && (s'.queue == if step.Pop? then s.queue[1..]
                              else if step.Post? || step.PostKernel? then s.queue + [|s.requests|] else s.queue)
              && (forall p :: p in s.flag ==> p in s'.flag)
              && (forall p :: p in s'.flag ==>
                    (s'.flag[p] <==> if (step.Wait? || step.Resume?) && p == step.p then false
                                     else if step.Wake? && p in s.phase && p == s.server[step.k].owner then true
                                     else p in s.flag && s.flag[p]))
    ensures Enabled(s, step) ==>
              var s', n := Next(s, step), |s.requests|;
              match step
              case Post(p) => s'.phase[p] == Posted(n) && |s'.requests| == n + 1
                              && s'.requests[n] == Request(p, 0, true)
              case Wait(p) => s'.phase[p] == Waiting(s.phase[p].r)
              case Resume(p) => s'.phase[p] == Resumed(s.phase[p].r)
              case Collect(p) => s'.phase[p] == Running
              case Pop(k) => s'.server[k] == Popped(s.queue[0])
              case Execute(k) => s'.server[k] == Executed(s.server[k].r)
              case ReadOwner(k) => s'.server[k] == Waking(s.requests[s.server[k].r].owner)
              case Wake(k) => s'.server[k] == Idle && (s.server[k].owner in s.phase ==> s.server[k].owner in s'.flag)
              case PostKernel => |s'.requests| == n + 1 && s'.requests[n] == Request(NO_PROCESS, 0, true)
                                 && s'.kernelHeld == s.kernelHeld + {n}
              case CollectKernel(r) => s'.kernelHeld == s.kernelHeld - {r}
  {
  }

  // The step uses no deleted request, and a process takes a result only once its request was
  // executed.
  predicate Safe(s: System, step: Step)
    requires Enabled(s, step)
  {
    match step
    case Collect(p) => s.requests[s.phase[p].r].live && s.requests[s.phase[p].r].runs == 1
    case Execute(k) => s.requests[s.server[k].r].live && s.requests[s.server[k].r].runs == 0
    case ReadOwner(k) => s.requests[s.server[k].r].live
    case Resume(p) => s.phase[p].r < |s.requests| && s.requests[s.phase[p].r].live && s.requests[s.phase[p].r].runs == 1
    case _ => true
  }

  predicate Awaits(s: System, p: int, r: nat) {
    p in s.phase && (s.phase[p] == Posted(r) || s.phase[p] == Waiting(r))
  }

  // The request r is live, made by a process that waits for it, and was executed so often.
  predicate Outstanding(s: System, r: nat, runs: nat) {
    r < |s.requests| && s.requests[r].live && s.requests[r].runs == runs && Awaits(s, s.requests[r].owner, r)
  }

  function Owner(s: System, r: nat): int {
    if r < |s.requests| then s.requests[r].owner else NO_PROCESS
  }

  // The process whose request a server has in hand.
  function Serves(s: System, k: int): int {
    if k !in s.server || s.server[k].Idle? then NO_PROCESS
    else if s.server[k].Waking? then s.server[k].owner
    else Owner(s, s.server[k].r)
  }

  predicate Busy(s: System, k: int) {
    k in s.server && !s.server[k].Idle?
  }

  ghost predicate QueueSound(s: System) {
    && (forall i :: 0 <= i < |s.queue| ==> Outstanding(s, s.queue[i], 0))
    && (forall i, j :: 0 <= i < j < |s.queue| ==> s.queue[i] != s.queue[j])
  }

  ghost predicate ServerSound(s: System, k: int)
    requires k in s.server
  {
    match s.server[k]
    case Idle => true
    case Popped(r) => Outstanding(s, r, 0)
    case Executed(r) => Outstanding(s, r, 1)
    case Waking(p) => p in s.phase && (s.phase[p].Posted? || s.phase[p].Waiting?) && Outstanding(s, s.phase[p].r, 1) &&
                      s.requests[s.phase[p].r].owner == p
  }

  // No process is served twice over: servers serve different processes, none of them queued.
  ghost predicate ServedOnce(s: System) {
    && (forall k, l :: Busy(s, k) && Busy(s, l) && k != l ==> Serves(s, k) != Serves(s, l))
    && (forall i, k :: 0 <= i < |s.queue| && Busy(s, k) ==> Owner(s, s.queue[i]) != Serves(s, k))
  }

  // A process that was or can be resumed: its request was executed and nobody works on it.
  ghost predicate Done(s: System, p: int, r: nat) {
    && r < |s.requests| && s.requests[r] == Request(p, 1, true)
    && forall k :: Busy(s, k) ==> Serves(s, k) != p
  }

  ghost predicate ProcessSound(s: System, p: int)
    requires p in s.phase
  {
    match s.phase[p]
    case Running => true
    case Posted(r) => r < |s.requests| && s.requests[r].live && s.requests[r].owner == p
    case Waiting(r) => r < |s.requests| && s.requests[r].live && s.requests[r].owner == p
        && (p in s.flag && s.flag[p] ==> Done(s, p, r))
    case Resumed(r) => Done(s, p, r)
  }

  ghost predicate Inv(s: System) {
    && NO_PROCESS !in s.phase && s.kernelHeld == {} && QueueSound(s)
    && (forall k :: k in s.server ==> ServerSound(s, k))
    && ServedOnce(s) && (forall p :: p in s.phase ==> ProcessSound(s, p))
    && (forall r :: 0 <= r < |s.requests| ==> s.requests[r].runs <= 1)
  }

  lemma StepSafe(s: System, step: Step)
    requires Inv(s) && Enabled(s, step) && !step.PostKernel?
    ensures Safe(s, step)
  {
  }

  // Whoever is served or queued waits for it.
  lemma ServedAwaits(s: System, k: int)
    requires Inv(s) && Busy(s, k)
    ensures Serves(s, k) in s.phase && (s.phase[Serves(s, k)].Posted? || s.phase[Serves(s, k)].Waiting?)
    ensures !s.server[k].Waking? ==> s.server[k].r < |s.requests| && s.phase[Serves(s, k)].r == s.server[k].r
    ensures s.phase[Serves(s, k)].r < |s.requests|
  {
  }

  lemma QueuedAwaits(s: System, i: int)
    requires Inv(s) && 0 <= i < |s.queue|
    ensures s.queue[i] < |s.requests| && Owner(s, s.queue[i]) in s.phase
    ensures Awaits(s, Owner(s, s.queue[i]), s.queue[i])
  {
  }

  lemma PostKeeps(s: System, p: int)
    requires Inv(s) && Enabled(s, Post(p))
    ensures Inv(Next(s, Post(p)))
  {
    var s' := Next(s, Post(p));
    forall k | Busy(s, k)
      ensures Busy(s', k) && Serves(s', k) == Serves(s, k) && Serves(s, k) != p && ServerSound(s', k)
    {
      ServedAwaits(s, k);
      assert ServerSound(s, k);
    }
    forall i | 0 <= i < |s.queue|
      ensures s'.queue[i] == s.queue[i] && Owner(s', s.queue[i]) == Owner(s, s.queue[i]) && Owner(s, s.queue[i]) != p
      ensures Outstanding(s', s.queue[i], 0)
    {
      QueuedAwaits(s, i);
    }
    PostServed(s, s', p);
    forall q | q in s'.phase
      ensures ProcessSound(s', q)
    {
      assert ProcessSound(s, q);
    }
  }

  lemma PostServed(s: System, s': System, p: int)
    requires ServedOnce(s) && s'.queue == s.queue + [|s.requests|] && Owner(s', |s.requests|) == p
    requires forall k :: Busy(s', k) ==> Busy(s, k)
    requires forall k :: Busy(s, k) ==> Serves(s', k) == Serves(s, k) && Serves(s, k) != p
    requires forall i :: 0 <= i < |s.queue| ==> Owner(s', s.queue[i]) == Owner(s, s.queue[i])
    ensures ServedOnce(s')
  {
  }

  lemma WaitKeeps(s: System, p: int)
    requires Inv(s) && Enabled(s, Wait(p))
    ensures Inv(Next(s, Wait(p)))
  {
    var s' := Next(s, Wait(p));
    SameServed(s, s');
    forall k | k in s.server
      ensures ServerSound(s', k)
    {
      assert ServerSound(s, k);
    }
    forall q | q in s'.phase
      ensures ProcessSound(s', q)
    {
      assert ProcessSound(s, q);
      SameDone(s, s', q);
    }
  }

  lemma ResumeKeeps(s: System, p: int)
    requires Inv(s) && Enabled(s, Resume(p))
    ensures Inv(Next(s, Resume(p)))
  {
    var s', r := Next(s, Resume(p)), s.phase[p].r;
    assert ProcessSound(s, p);
    SameServed(s, s');
    forall k | k in s.server
      ensures ServerSound(s', k)
    {
      assert ServerSound(s, k);
      assert Busy(s, k) ==> Serves(s, k) != p;
    }
    forall q | q in s'.phase
      ensures ProcessSound(s', q)
    {
      assert ProcessSound(s, q);
      SameDone(s, s', q);
    }
    forall i | 0 <= i < |s.queue|
      ensures Outstanding(s', s.queue[i], 0)
    {
      QueuedAwaits(s, i);
    }
  }

  // Steps that leave requests, servers and queue as they are.
  lemma SameServed(s: System, s': System)
    requires ServedOnce(s) && s'.requests == s.requests && s'.server == s.server && s'.queue == s.queue
    ensures ServedOnce(s')
  {
    forall k
      ensures Busy(s', k) <==> Busy(s, k)
      ensures Serves(s', k) == Serves(s, k)
    {
    }
  }

  lemma SameDone(s: System, s': System, p: int)
    requires s'.requests == s.requests && s'.server == s.server
    ensures forall r: nat :: Done(s, p, r) ==> Done(s', p, r)
  {
    forall k
      ensures Busy(s', k) <==> Busy(s, k)
      ensures Serves(s', k) == Serves(s, k)
    {
    }
  }

  lemma CollectKeeps(s: System, p: int)
    requires Inv(s) && Enabled(s, Collect(p))
    ensures Inv(Next(s, Collect(p)))
  {
    var s', r := Next(s, Collect(p)), s.phase[p].r;
    assert ProcessSound(s, p);
    forall k | Busy(s, k)
      ensures Busy(s', k) && Serves(s', k) == Serves(s, k) && ServerSound(s', k)
    {
      ServedAwaits(s, k);
      assert ServerSound(s, k);
    }
    forall i | 0 <= i < |s.queue|
      ensures Outstanding(s', s.queue[i], 0) && Owner(s', s.queue[i]) == Owner(s, s.queue[i])
    {
      QueuedAwaits(s, i);
    }
    StillServed(s, s');
    forall q | q in s'.phase
      ensures ProcessSound(s', q)
    {
      assert ProcessSound(s, q);
    }
  }

  // The servers serve whom they served, and the queue did not grow.
  lemma StillServed(s: System, s': System)
    requires ServedOnce(s) && s'.queue == s.queue && forall k :: Busy(s', k) ==> Busy(s, k)
    requires forall k :: Busy(s', k) ==> Serves(s', k) == Serves(s, k)
    requires forall i :: 0 <= i < |s.queue| ==> Owner(s', s.queue[i]) == Owner(s, s.queue[i])
    ensures ServedOnce(s')
  {
  }

  lemma PopKeeps(s: System, k: int)
    requires Inv(s) && Enabled(s, Pop(k))
    ensures Inv(Next(s, Pop(k)))
  {
    var s' := Next(s, Pop(k));
    QueuedAwaits(s, 0);
    forall l | l in s.server && l != k
      ensures Busy(s', l) <==> Busy(s, l)
      ensures Serves(s', l) == Serves(s, l) && ServerSound(s', l)
    {
      assert ServerSound(s, l);
    }
    assert Busy(s', k) && Serves(s', k) == Owner(s, s.queue[0]) && ServerSound(s', k);
    forall i | 0 <= i < |s'.queue|
      ensures s'.queue[i] == s.queue[i + 1] && Outstanding(s', s'.queue[i], 0)
      ensures Owner(s', s'.queue[i]) != Owner(s, s.queue[0])
    {
      QueuedAwaits(s, i + 1);
    }
    PopServed(s, s', k);
    forall q | q in s'.phase
      ensures ProcessSound(s', q)
    {
      assert ProcessSound(s, q);
    }
  }

  lemma PopServed(s: System, s': System, k: int)
    requires ServedOnce(s) && s.queue != [] && s'.queue == s.queue[1..] && s'.requests == s.requests
    requires k in s.server && s.server[k].Idle? && Serves(s', k) == Owner(s, s.queue[0])
    requires forall l :: l != k && Busy(s', l) ==> Busy(s, l) && Serves(s', l) == Serves(s, l)
    requires forall i :: 0 <= i < |s'.queue| ==> Owner(s', s'.queue[i]) != Owner(s, s.queue[0])
    ensures ServedOnce(s')
  {
  }

  lemma ExecuteKeeps(s: System, k: int)
    requires Inv(s) && Enabled(s, Execute(k))
    ensures Inv(Next(s, Execute(k)))
  {
    var s' := Next(s, Execute(k));
    assert ServerSound(s, k) && Busy(s, k);
    forall l | Busy(s, l)
      ensures Busy(s', l) && Serves(s', l) == Serves(s, l) && ServerSound(s', l)
    {
      ServedAwaits(s, l);
      assert ServerSound(s, l);
      assert l != k ==> Serves(s, l) != Serves(s, k);
    }
    forall i | 0 <= i < |s.queue|
      ensures Outstanding(s', s.queue[i], 0) && Owner(s', s.queue[i]) == Owner(s, s.queue[i])
    {
      QueuedAwaits(s, i);
      assert Owner(s, s.queue[i]) != Serves(s, k);
    }
    StillServed(s, s');
    forall q | q in s'.phase
      ensures ProcessSound(s', q)
    {
      assert ProcessSound(s, q);
    }
  }

  lemma ReadOwnerKeeps(s: System, k: int)
    requires Inv(s) && Enabled(s, ReadOwner(k))
    ensures Inv(Next(s, ReadOwner(k)))
  {
    var s' := Next(s, ReadOwner(k));
    assert ServerSound(s, k) && Busy(s, k);
    forall l | Busy(s, l)
      ensures Busy(s', l) && Serves(s', l) == Serves(s, l) && ServerSound(s', l)
    {
      ServedAwaits(s, l);
      assert ServerSound(s, l);
    }
    StillServed(s, s');
    forall q | q in s'.phase
      ensures ProcessSound(s', q)
    {
      assert ProcessSound(s, q);
    }
  }

  lemma WakeKeeps(s: System, k: int)
    requires Inv(s) && Enabled(s, Wake(k))
    ensures Inv(Next(s, Wake(k)))
  {
    var s', p := Next(s, Wake(k)), s.server[k].owner;
    assert ServerSound(s, k) && Busy(s, k) && Serves(s, k) == p;
    forall l | l != k && Busy(s, l)
      ensures Busy(s', l) && Serves(s', l) == Serves(s, l) && ServerSound(s', l) && Serves(s, l) != p
    {
      assert ServerSound(s, l);
    }
    StillServed(s, s');
    forall q | q in s'.phase
      ensures ProcessSound(s', q)
    {
      assert ProcessSound(s, q);
      if q == p {
        WokenDone(s, s', k, p);
      }
    }
  }

  // The process that is woken: its request was executed, and no other server has it in hand.
  lemma WokenDone(s: System, s': System, k: int, p: int)
    requires Inv(s) && k in s.server && s.server[k] == Waking(p) && s'.requests == s.requests && p in s.phase
    requires s'.server == s.server[k := Idle]
    ensures (s.phase[p].Posted? || s.phase[p].Waiting?) && Done(s', p, s.phase[p].r)
  {
    assert ServerSound(s, k) && Serves(s, k) == p && Busy(s, k);
    forall l | Busy(s', l)
      ensures Serves(s', l) != p
    {
      assert Busy(s, l) && Serves(s', l) == Serves(s, l);
    }
  }

  // Every step but a request from kernel mode keeps the invariant.
  lemma StepKeeps(s: System, step: Step)
    requires Inv(s) && Enabled(s, step) && !step.PostKernel?
    ensures Inv(Next(s, step))
  {
    match step
    case Post(p) => PostKeeps(s, p);
    case Wait(p) => WaitKeeps(s, p);
    case Resume(p) => ResumeKeeps(s, p);
    case Collect(p) => CollectKeeps(s, p);
    case Pop(k) => PopKeeps(s, k);
    case Execute(k) => ExecuteKeeps(s, k);
    case ReadOwner(k) => ReadOwnerKeeps(s, k);
    case Wake(k) => WakeKeeps(s, k);
    case CollectKernel(r) =>
  }

  // Nothing requested yet, every process running and every server idle.
  ghost predicate Start(s: System) {
    && NO_PROCESS !in s.phase && s.queue == [] && s.requests == [] && s.kernelHeld == {}
    && (forall p :: p in s.phase ==> s.phase[p].Running?) && (forall k :: k in s.server ==> s.server[k].Idle?)
  }

  lemma StartKeeps(s: System)
    requires Start(s)
    ensures Inv(s)
  {
  }

  // The steps of a run are all possible in turn.
  predicate Legal(s: System, steps: seq<Step>)
    decreases |steps|
  {
    steps == [] || (Enabled(s, steps[0]) && Legal(Next(s, steps[0]), steps[1..]))
  }

  // And each of them is safe.
  predicate AllSafe(s: System, steps: seq<Step>)
    requires Legal(s, steps)
    decreases |steps|
  {
    steps == [] || (Safe(s, steps[0]) && AllSafe(Next(s, steps[0]), steps[1..]))
  }

  function After(s: System, steps: seq<Step>): System
    requires Legal(s, steps)
    decreases |steps|
  {
    if steps == [] then s else After(Next(s, steps[0]), steps[1..])
  }

  // In every interleaving without requests from kernel mode a process resumes only after its
  // request was executed, no request is executed twice, and none is used once deleted.
  lemma {:induction false} RunSafe(s: System, steps: seq<Step>)
    requires Inv(s) && Legal(s, steps) && PostKernel !in steps
    ensures AllSafe(s, steps) && Inv(After(s, steps))
    decreases |steps|
  {
    if steps != [] {
      StepSafe(s, steps[0]);
      StepKeeps(s, steps[0]);
      RunSafe(Next(s, steps[0]), steps[1..]);
    }
  }

  ghost predicate AlwaysSafe(s: System, kernelMode: bool) {
    forall steps :: Legal(s, steps) && (kernelMode || PostKernel !in steps) ==> AllSafe(s, steps)
  }

  // Every interleaving is safe exactly if no request is made in kernel mode, where the wait
  // returns at once and the request is deleted while it is still queued.
  lemma AlwaysSafeIff(s: System, k: int, kernelMode: bool)
    requires Start(s) && k in s.server
    ensures AlwaysSafe(s, kernelMode) <==> !kernelMode
  {
    StartKeeps(s);
    if kernelMode {
      DeletedUsed(s, k);
    } else {
      forall steps | Legal(s, steps) && PostKernel !in steps
        ensures AllSafe(s, steps)
      {
        RunSafe(s, steps);
      }
    }
  }

  lemma UnsafeFirst(s: System, step: Step, rest: seq<Step>)
    requires Enabled(s, step) && Legal(Next(s, step), rest) && (!Safe(s, step) || !AllSafe(Next(s, step), rest))
    ensures Legal(s, [step] + rest) && !AllSafe(s, [step] + rest)
  {
  }

  // A request from kernel mode taken by a server and then deleted.
  function DeletedEarly(s: System, k: int): System
    requires k in s.server && s.server[k].Idle? && s.queue == [] && s.requests == [] && s.kernelHeld == {}
  {
    Next(Next(Next(s, PostKernel), Pop(k)), CollectKernel(0))
  }

  lemma DeletedEarlyUnsafe(s: System, k: int)
    requires Start(s) && k in s.server
    ensures Enabled(DeletedEarly(s, k), Execute(k)) && !Safe(DeletedEarly(s, k), Execute(k))
  {
  }

  // The interleaving in which a server takes a request from kernel mode and executes it after it
  // was deleted.
  function DeletedRun(k: int): seq<Step> {
    [PostKernel, Pop(k), CollectKernel(0), Execute(k)]
  }

  lemma DeletedUsed(s: System, k: int)
    requires Start(s) && k in s.server
    ensures Legal(s, DeletedRun(k)) && !AllSafe(s, DeletedRun(k))
  {
    hide Legal, AllSafe, Safe;
    DeletedEarlyUnsafe(s, k);
    var s1 := Next(s, PostKernel);
    var s2 := Next(s1, Pop(k));
    var s3 := Next(s2, CollectKernel(0));
    NoSteps(Next(s3, Execute(k)));
    UnsafeFirst(s3, Execute(k), []);
    var steps := [Execute(k)] + [];
    UnsafeFirst(s2, CollectKernel(0), steps);
    steps := [CollectKernel(0)] + steps;
    UnsafeFirst(s1, Pop(k), steps);
    steps := [Pop(k)] + steps;
    UnsafeFirst(s, PostKernel, steps);
    assert [PostKernel] + steps == DeletedRun(k);
  }

  // The process waits, its request was executed and nobody will set its flag any more.
  ghost predicate Stuck(s: System, p: int) {
    p in s.phase && s.phase[p].Waiting? && !(p in s.flag && s.flag[p]) && Done(s, p, s.phase[p].r)
  }

  // A process gets stuck exactly by starting to wait after it was woken.
  lemma StuckByLateWait(s: System, step: Step, p: int)
    requires Inv(s) && Enabled(s, step) && !step.PostKernel? && p in s.phase && !Stuck(s, p)
    ensures Stuck(Next(s, step), p) <==> step == Wait(p) && Done(s, p, s.phase[p].r)
  {
    if step.Wait? {
      LateWaitSticks(s, step.p, p);
    } else if Stuck(Next(s, step), p) {
      OthersDoNotStick(s, step, p);
    }
  }

  lemma LateWaitSticks(s: System, q: int, p: int)
    requires Enabled(s, Wait(q)) && p in s.phase && !Stuck(s, p)
    ensures Stuck(Next(s, Wait(q)), p) <==> q == p && Done(s, p, s.phase[p].r)
  {
    var s' := Next(s, Wait(q));
    SameDone(s, s', p);
    SameDone(s', s, p);
  }

  lemma OthersDoNotStick(s: System, step: Step, p: int)
    requires Inv(s) && Enabled(s, step) && !step.PostKernel? && !step.Wait? && p in s.phase
    requires Stuck(Next(s, step), p)
    ensures Stuck(s, p)
  {
    var s' := Next(s, step);
    assert ProcessSound(s, p);
    forall k | Busy(s, k)
      ensures Serves(s, k) != p
    {
      assert ServerSound(s, k);
      assert Busy(s', k) ==> Serves(s', k) == Serves(s, k);
    }
    assert step.Execute? ==> Busy(s, step.k);
  }

  // A stuck process stays stuck.
  lemma StuckStays(s: System, step: Step, p: int)
    requires Inv(s) && Enabled(s, step) && !step.PostKernel? && Stuck(s, p)
    ensures Stuck(Next(s, step), p)
  {
    var s' := Next(s, step);
    forall k | Busy(s', k)
      ensures Serves(s', k) != p
    {
      assert k in s.server && ServerSound(s, k);
      if step == Pop(k) {
        QueuedAwaits(s, 0);
      } else {
        assert Busy(s, k) && Serves(s', k) == Serves(s, k);
      }
    }
    assert step.Wake? || step.Execute? ==> Busy(s, step.k);
  }

  // No request that was not executed is lost: it is queued, or a server has it in hand.
  ghost predicate Accounted(s: System) {
    forall r :: 0 <= r < |s.requests| && s.requests[r].live && s.requests[r].runs == 0 ==>
      r in s.queue || exists k :: k in s.server && s.server[k] == Popped(r)
  }

  lemma AccountedKeeps(s: System, step: Step)
    requires Inv(s) && Accounted(s) && Enabled(s, step) && !step.PostKernel?
    ensures Accounted(Next(s, step))
  {
    hide Inv;
    var s' := Next(s, step);
    forall r | 0 <= r < |s'.requests| && s'.requests[r].live && s'.requests[r].runs == 0
      ensures r in s'.queue || exists k :: k in s'.server && s'.server[k] == Popped(r)
    {
      if r < |s.requests| {
        assert s.requests[r].live && s.requests[r].runs == 0;
        if r in s.queue {
          if step.Pop? && r == s.queue[0] {
            assert s'.server[step.k] == Popped(r);
          }
        } else {
          var k :| k in s.server && s.server[k] == Popped(r);
          assert s'.server[k] == Popped(r);
        }
      } else {
        assert s'.queue[|s.queue|] == r;
      }
    }
  }

  // How many steps a server has before it for the request in its hand.
  function Ahead(server: Server): nat {
    match server
    case Idle => 0
    case Popped(_) => 3
    case Executed(_) => 2
    case Waking(_) => 1
  }

  function NextOf(s: System, k: int): Step
    requires Busy(s, k)
  {
    match s.server[k]
    case Popped(_) => Execute(k)
    case Executed(_) => ReadOwner(k)
    case Waking(_) => Wake(k)
  }

  // A server with a request in hand can always go on.
  lemma ServerGoesOn(s: System, k: int)
    requires Inv(s) && Busy(s, k)
    ensures var s' := Next(s, NextOf(s, k));
            && Enabled(s, NextOf(s, k)) && Inv(s') && s'.queue == s.queue && s'.phase == s.phase
            && s'.server.Keys == s.server.Keys && Ahead(s'.server[k]) == Ahead(s.server[k]) - 1
            && (Busy(s', k) ==> Serves(s', k) == Serves(s, k))
            && (!Busy(s', k) ==> Serves(s, k) in s'.flag && s'.flag[Serves(s, k)])
  {
    assert ServerSound(s, k);
    StepKeeps(s, NextOf(s, k));
  }

  predicate Runs(s: System, p: int) {
    p in s.phase && s.phase[p] == Running
  }

  lemma WokenGoesOn(s: System, p: int) returns (steps: seq<Step>)
    requires p in s.phase && s.phase[p].Waiting? && s.phase[p].r < |s.requests| && p in s.flag && s.flag[p]
    ensures steps == [Resume(p), Collect(p)]
    ensures Legal(s, steps) && Runs(After(s, steps), p)
  {
    var s1 := Next(s, Resume(p));
    var s2 := Next(s1, Collect(p));
    NoSteps(s2);
    StepFirst(s1, Collect(p), []);
    StepFirst(s, Resume(p), [Collect(p)] + []);
    steps := [Resume(p)] + ([Collect(p)] + []);
  }

  // The server that has p's request in hand wakes it in the end.
  lemma {:induction false} ServedGoesOn(s: System, p: int, k: int) returns (steps: seq<Step>)
    requires Inv(s) && p in s.phase && s.phase[p].Waiting? && Busy(s, k) && Serves(s, k) == p
    ensures Legal(s, steps) && PostKernel !in steps && Runs(After(s, steps), p)
    decreases Ahead(s.server[k])
  {
    hide Inv, Legal, After;
    ServerGoesOn(s, k);
    var s' := Next(s, NextOf(s, k));
    WaitsForOne(s', p);
    if Busy(s', k) {
      steps := ServedGoesOn(s', p, k);
    } else {
      steps := WokenGoesOn(s', p);
    }
    StepFirst(s, NextOf(s, k), steps);
    steps := [NextOf(s, k)] + steps;
  }

  lemma WaitsForOne(s: System, p: int)
    requires Inv(s) && p in s.phase && s.phase[p].Waiting?
    ensures s.phase[p].r < |s.requests| && s.requests[s.phase[p].r].live && s.requests[s.phase[p].r].owner == p
    ensures s.requests[s.phase[p].r].runs <= 1
  {
    assert ProcessSound(s, p);
  }

  // Any one server comes to a queued request in the end.
  lemma {:induction false} QueuedGoesOn(s: System, p: int, k: int) returns (steps: seq<Step>)
    requires Inv(s) && p in s.phase && s.phase[p].Waiting? && s.phase[p].r in s.queue && k in s.server
    ensures Legal(s, steps) && PostKernel !in steps && Runs(After(s, steps), p)
    decreases |s.queue|, Ahead(s.server[k])
  {
    hide Inv, Legal, After;
    WaitsForOne(s, p);
    var step := if Busy(s, k) then NextOf(s, k) else Pop(k);
    if Busy(s, k) {
      ServerGoesOn(s, k);
      steps := QueuedGoesOn(Next(s, step), p, k);
    } else {
      StepKeeps(s, step);
      var s' := Next(s, step);
      if s.queue[0] == s.phase[p].r {
        steps := ServedGoesOn(s', p, k);
      } else {
        steps := QueuedGoesOn(s', p, k);
      }
    }
    StepFirst(s, step, steps);
    steps := [step] + steps;
  }

  // A process that waits was woken, or its request is queued, or a server has it in hand, unless
  // it is stuck.
  lemma WaitsForSomeone(s: System, p: int)
    requires Inv(s) && Accounted(s) && p in s.phase && s.phase[p].Waiting?
    ensures !Stuck(s, p) <==>
              || (p in s.flag && s.flag[p]) || s.phase[p].r in s.queue
              || exists k :: Busy(s, k) && Serves(s, k) == p
  {
    WaitsForOne(s, p);
    var r := s.phase[p].r;
    if r in s.queue {
      var i :| 0 <= i < |s.queue| && s.queue[i] == r;
      assert Outstanding(s, s.queue[i], 0);
    }
    if s.requests[r].runs == 0 && r !in s.queue {
      var k :| k in s.server && s.server[k] == Popped(r);
      assert Busy(s, k) && Serves(s, k) == p;
    }
  }

  // One that was woken, its request neither queued nor in a server's hand, can go on at once,
  // whatever else is queued.
  lemma ResumesAtOnce(s: System, p: int)
    requires Inv(s) && Accounted(s) && p in s.phase && s.phase[p].Waiting? && !Stuck(s, p)
    requires s.phase[p].r !in s.queue && forall k :: Busy(s, k) ==> Serves(s, k) != p
    ensures Legal(s, [Resume(p), Collect(p)]) && Runs(After(s, [Resume(p), Collect(p)]), p)
  {
    hide Legal, After;
    WaitsForSomeone(s, p);
    WaitsForOne(s, p);
    var steps := WokenGoesOn(s, p);
  }

  // From every state that a run reaches, a process that waits can be brought back to running exactly
  // if it is not stuck, with any one server, whatever is queued or in hand.
  lemma WaitEndsIff(start: System, run: seq<Step>, p: int, k: int)
    requires Start(start) && Legal(start, run) && PostKernel !in run
    requires var s := After(start, run); p in s.phase && s.phase[p].Waiting? && k in s.server
    ensures var s := After(start, run);
            (exists steps :: Legal(s, steps) && PostKernel !in steps && Runs(After(s, steps), p)) <==> !Stuck(s, p)
  {
    hide Inv, Legal, After, Stuck, Accounted;
    StartKeeps(start);
    NothingRequested(start);
    RunSafe(start, run);
    RunAccounted(start, run);
    var s := After(start, run);
    if Stuck(s, p) {
      forall steps | Legal(s, steps) && PostKernel !in steps
        ensures Stuck(After(s, steps), p)
      {
        StuckForGood(s, steps, p);
      }
      StuckWaits(s, p);
    } else {
      var steps := WaitEnds(s, p, k);
    }
  }

  lemma WaitEnds(s: System, p: int, k: int) returns (steps: seq<Step>)
    requires Inv(s) && Accounted(s) && p in s.phase && s.phase[p].Waiting? && k in s.server && !Stuck(s, p)
    ensures Legal(s, steps) && PostKernel !in steps
    ensures Runs(After(s, steps), p)
  {
    hide Inv, Legal, After, Stuck, Accounted;
    WaitsForOne(s, p);
    WaitsForSomeone(s, p);
    if p in s.flag && s.flag[p] {
      steps := WokenGoesOn(s, p);
    } else if s.phase[p].r in s.queue {
      steps := QueuedGoesOn(s, p, k);
    } else {
      var l :| Busy(s, l) && Serves(s, l) == p;
      steps := ServedGoesOn(s, p, l);
    }
  }

  lemma StuckWaits(s: System, p: int)
    ensures forall steps :: Legal(s, steps) && Stuck(After(s, steps), p) ==> !Runs(After(s, steps), p)
  {
  }

  lemma NothingRequested(s: System)
    requires Start(s)
    ensures Accounted(s)
  {
  }

  lemma {:induction false} StuckForGood(s: System, steps: seq<Step>, p: int)
    requires Inv(s) && Legal(s, steps) && PostKernel !in steps && Stuck(s, p)
    ensures Stuck(After(s, steps), p)
    decreases |steps|
  {
    hide Inv, Stuck;
    if steps != [] {
      StuckStays(s, steps[0], p);
      StepKeeps(s, steps[0]);
      StuckForGood(Next(s, steps[0]), steps[1..], p);
    }
  }

  lemma {:induction false} RunAccounted(s: System, steps: seq<Step>)
    requires Inv(s) && Accounted(s) && Legal(s, steps) && PostKernel !in steps
    ensures Accounted(After(s, steps))
    decreases |steps|
  {
    hide Inv, Accounted;
    if steps != [] {
      AccountedKeeps(s, steps[0]);
      StepKeeps(s, steps[0]);
      RunAccounted(Next(s, steps[0]), steps[1..]);
    }
  }

  lemma StepFirst(s: System, step: Step, rest: seq<Step>)
    requires Enabled(s, step) && Legal(Next(s, step), rest)
    ensures Legal(s, [step] + rest) && After(s, [step] + rest) == After(Next(s, step), rest)
  {
  }

  // The service run through for the request of p before p starts to wait.
  function ServedEarly(s: System, p: int, k: int): System
    requires p in s.phase && s.phase[p].Running? && k in s.server && s.server[k].Idle? && s.queue == []
  {
    Next(Next(Next(Next(Next(s, Post(p)), Pop(k)), Execute(k)), ReadOwner(k)), Wake(k))
  }

  lemma ServedEarlySticks(s: System, p: int, k: int)
    requires Start(s) && p in s.phase && k in s.server
    ensures Enabled(ServedEarly(s, p, k), Wait(p)) && Stuck(Next(ServedEarly(s, p, k), Wait(p)), p)
  {
  }

  // It happens: the whole service can run between queueing the request and starting to wait.
  lemma LostWakeHappens(s: System, p: int, k: int)
    requires Start(s) && p in s.phase && k in s.server
    ensures exists steps :: Legal(s, steps) && PostKernel !in steps && Stuck(After(s, steps), p)
  {
    hide Legal, After, Stuck;
    ServedEarlySticks(s, p, k);
    var s1 := Next(s, Post(p));
    var s2 := Next(s1, Pop(k));
    var s3 := Next(s2, Execute(k));
    var s4 := Next(s3, ReadOwner(k));
    var s5 := Next(s4, Wake(k));
    var s6 := Next(s5, Wait(p));
    NoSteps(s6);
    StepFirst(s5, Wait(p), []);
    var steps := [Wait(p)] + [];
    StepFirst(s4, Wake(k), steps);
    steps := [Wake(k)] + steps;
    StepFirst(s3, ReadOwner(k), steps);
    steps := [ReadOwner(k)] + steps;
    StepFirst(s2, Execute(k), steps);
    steps := [Execute(k)] + steps;
    StepFirst(s1, Pop(k), steps);
    steps := [Pop(k)] + steps;
    StepFirst(s, Post(p), steps);
    steps := [Post(p)] + steps;
  }

  lemma NoSteps(s: System)
    ensures Legal(s, []) && After(s, []) == s
  {
  }

  // The state the processes share, changed in place by the functions they call.
  class KernelService {
    var phase: map<int, Phase>
    var flag: map<int, bool>
    var queue: seq<nat>
    var server: map<int, Server>
    var requests: seq<Request>
    var kernelHeld: set<nat>

    function State(): System
      reads this
    {
      System(phase, flag, queue, server, requests, kernelHeld)
    }

    constructor (processes: set<int>, servers: set<int>)
      requires NO_PROCESS !in processes
      ensures Start(State()) && phase.Keys == processes && server.Keys == servers
    {
      phase, flag := map p | p in processes :: Running, map[];
      server := map k | k in servers :: Idle;
      queue, requests, kernelHeld := [], [], {};
    }

    // AddRequest: a new request of the caller at the end of the queue.
    method AddRequest(owner: int) returns (r: nat)
      modifies this`requests, this`queue
      ensures r == |old(requests)| && requests == old(requests) + [Request(owner, 0, true)] && queue == old(queue) + [r]
    {
      r := |requests|;
      requests := requests + [Request(owner, 0, true)];
      queue := queue + [r];
    }

    // GetRequest: the oldest queued request, if any.
    method GetRequest() returns (found: bool, r: nat)
      modifies this`queue
      ensures found <==> old(queue) != []
      ensures if found then old(queue) == [r] + queue else queue == old(queue)
    {
      if queue == [] {
        return false, 0;
      }
      r := queue[0];
      queue := queue[1..];
      return true, r;
    }

    method WaitOnKernelService(p: int)
      requires p in phase && phase[p].Posted?
      modifies this`flag, this`phase
      ensures State() == Next(old(State()), Wait(p))
      ensures p in flag && !flag[p] && phase == old(phase)[p := Waiting(old(phase)[p].r)]
      ensures forall q :: q != p ==> (q in flag <==> q in old(flag)) && (q in flag ==> flag[q] == old(flag)[q])
    {
      flag := flag[p := false];
      phase := phase[p := Waiting(phase[p].r)];
    }

    method WakeUpFromKSWait(p: int)
      modifies this`flag
      ensures flag == if p in phase then old(flag)[p := true] else old(flag)
    {
      if p in phase {
        flag := flag[p := true];
      }
    }

    // The arm of DoContextSwitch for a process that waits for the service.
    method ContextSwitch(p: int) returns (resumed: bool)
      requires p in phase && phase[p].Waiting?
      modifies this`flag, this`phase
      ensures resumed <==> p in old(flag) && old(flag)[p]
      ensures resumed ==> p in flag && !flag[p] && phase == old(phase)[p := Resumed(old(phase)[p].r)]
      ensures forall q :: q != p ==> (q in flag <==> q in old(flag)) && (q in flag ==> flag[q] == old(flag)[q])
      ensures !resumed ==> flag == old(flag) && phase == old(phase)
      ensures resumed <==> Enabled(old(State()), Resume(p))
      ensures State() == if resumed then Next(old(State()), Resume(p)) else old(State())
    {
      if p in flag && flag[p] {
        flag := flag[p := false];
        phase := phase[p := Resumed(phase[p].r)];
        return true;
      }
      return false;
    }

    // Performs one step of whoever is scheduled, if it can be taken.
    method Perform(step: Step) returns (taken: bool)
      modifies this
      ensures taken <==> Enabled(old(State()), step)
      ensures taken <==>
              match step
              case Post(p) => p in old(phase) && old(phase)[p] == Running
              case Wait(p) => p in old(phase) && old(phase)[p].Posted?
              case Resume(p) => p in old(phase) && old(phase)[p].Waiting? && p in old(flag) && old(flag)[p]
              case Collect(p) => p in old(phase) && old(phase)[p].Resumed? && old(phase)[p].r < |old(requests)|
              case Pop(k) => k in old(server) && old(server)[k] == Idle && |old(queue)| > 0
              case Execute(k) => k in old(server) && old(server)[k].Popped? && old(server)[k].r < |old(requests)|
              case ReadOwner(k) => k in old(server) && old(server)[k].Executed? && old(server)[k].r < |old(requests)|
              case Wake(k) => k in old(server) && old(server)[k].Waking?
              case PostKernel => true
              case CollectKernel(r) => r in old(kernelHeld) && r < |old(requests)|
      ensures State() == if taken then Next(old(State()), step) else old(State())
    {
      if !Enabled(State(), step) {
        return false;
      }
      match step {
        case Post(p) =>
          var r := AddRequest(p);
          phase := phase[p := Posted(r)];
        case Wait(p) => WaitOnKernelService(p);
        case Resume(p) => var resumed := ContextSwitch(p);
        case Collect(p) =>
          requests := requests[phase[p].r := requests[phase[p].r].(live := false)];
          phase := phase[p := Running];
        case Pop(k) =>
          var found, r := GetRequest();
          server := server[k := Popped(r)];
        case Execute(k) =>
          var r := server[k].r;
          requests := requests[r := requests[r].(runs := requests[r].runs + 1)];
          server := server[k := Executed(r)];
        case ReadOwner(k) => server := server[k := Waking(requests[server[k].r].owner)];
        case Wake(k) =>
          WakeUpFromKSWait(server[k].owner);
          server := server[k := Idle];
        case PostKernel =>
          var r := AddRequest(NO_PROCESS);
          kernelHeld := kernelHeld + {r};
        case CollectKernel(r) =>
          requests := requests[r := requests[r].(live := false)];
          kernelHeld := kernelHeld - {r};
      }
      return true;
    }

    // Any schedule of any length: those of its steps that are possible in turn are taken, and
    // without requests from kernel mode each of them is safe.
    method Run(schedule: seq<Step>) returns (ghost taken: seq<Step>)
      requires Inv(State())
      modifies this
      ensures taken == Possible(old(State()), schedule) && Legal(old(State()), taken)
      ensures State() == After(old(State()), taken)
      ensures PostKernel !in schedule ==> AllSafe(old(State()), taken) && Inv(State())
    {
      hide Inv, Legal, After, AllSafe;
      ghost var s := State();
      taken := [];
      NoSteps(s);
      for i := 0 to |schedule|
        invariant Legal(s, taken) && State() == After(s, taken) && taken == Possible(s, schedule[..i])
        invariant PostKernel !in schedule ==> PostKernel !in taken
      {
        ghost var before := taken;
        var able := Perform(schedule[i]);
        PossibleNext(s, schedule[..i], schedule[i]);
        assert schedule[..i + 1] == schedule[..i] + [schedule[i]];
        if able {
          StepLast(s, taken, schedule[i]);
          taken := taken + [schedule[i]];
        }
      }
      assert schedule[..|schedule|] == schedule;
      if PostKernel !in schedule {
        RunSafe(s, taken);
      }
    }
  }

  // The steps of a schedule that are possible when their turn comes.
  function Possible(s: System, schedule: seq<Step>): (steps: seq<Step>)
    ensures Legal(s, steps)
    decreases |schedule|
  {
    if schedule == [] then []
    else if Enabled(s, schedule[0]) then [schedule[0]] + Possible(Next(s, schedule[0]), schedule[1..])
    else Possible(s, schedule[1..])
  }

  lemma {:induction false} PossibleNext(s: System, schedule: seq<Step>, step: Step)
    ensures var steps := Possible(s, schedule);
            Possible(s, schedule + [step]) == if Enabled(After(s, steps), step) then steps + [step] else steps
    decreases |schedule|
  {
    if schedule == [] {
      assert [step][1..] == [];
    } else {
      assert (schedule + [step])[1..] == schedule[1..] + [step];
      PossibleNext(if Enabled(s, schedule[0]) then Next(s, schedule[0]) else s, schedule[1..], step);
    }
  }

  lemma {:induction false} StepLast(s: System, steps: seq<Step>, step: Step)
    requires Legal(s, steps) && Enabled(After(s, steps), step)
    ensures Legal(s, steps + [step]) && After(s, steps + [step]) == Next(After(s, steps), step)
    decreases |steps|
  {
    if steps == [] {
      assert [step][1..] == [];
    } else {
      assert (steps + [step])[1..] == steps[1..] + [step];
      StepLast(Next(s, steps[0]), steps[1..], step);
    }
  }
}
