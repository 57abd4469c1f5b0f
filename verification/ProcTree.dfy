/** The walk up the parent chain of a process. */
module ProcTree {
  import opened Prelude

  const MAX_DEPTH := 64

  /** What `/proc` says: the parent of each process that can be read, and the names. */
  datatype Proc = Proc(parents: map<u32, u32>, names: map<u32, string>) {
    function Comm(pid: u32): string { if pid in names then names[pid] else "?" }
  }

  /** The walk ends at `pid`: its parent is unknown, at most 1, or itself. */
  predicate Stops(proc: Proc, pid: u32)
  {
    pid !in proc.parents || proc.parents[pid] <= 1 || proc.parents[pid] == pid
  }

  /** The ancestor after at most `k` steps. */
  function Up(proc: Proc, pid: u32, k: nat): u32
    decreases k
  {
    if k == 0 || Stops(proc, pid) then pid else Up(proc, proc.parents[pid], k - 1)
  }

  /** `path` goes from a process to its ancestors, parent by parent, every one of them above 1. */
  ghost predicate IsChain(proc: Proc, path: seq<u32>)
  {
    && path != []
    && forall i, j :: 0 <= i && j == i + 1 && j < |path| ==> IsLink(proc, path[i], path[j])
  }

  predicate IsLink(proc: Proc, child: u32, parent: u32)
  {
    child in proc.parents && proc.parents[child] == parent && parent > 1
  }

  /** No step leads up from `pid`: `/proc` has no parent for it, or gives 0, 1, or the process itself. */
  predicate Ends(proc: Proc, pid: u32)
  {
    pid in proc.parents ==> proc.parents[pid] in {0, 1, pid}
  }

  method ResolveRootProcess(proc: Proc, pid: u32) returns (rootPid: u32, rootComm: string)
    ensures rootPid == Up(proc, pid, 64)
    ensures rootComm == if rootPid in proc.names then proc.names[rootPid] else "?"
    ensures exists path :: IsChain(proc, path) && path[0] == pid && path[|path| - 1] == rootPid
                           && |path| <= 65 && (|path| <= 64 ==> Ends(proc, rootPid))
  {
    var cur := pid;
    rootPid := pid;
    rootComm := proc.Comm(pid);
    ghost var path := [pid];
    for i := 0 to MAX_DEPTH
      invariant rootPid == cur && rootComm == proc.Comm(cur)
      invariant Up(proc, pid, MAX_DEPTH) == Up(proc, cur, MAX_DEPTH - i)
      invariant IsChain(proc, path) && path[0] == pid && path[|path| - 1] == cur && |path| == i + 1
    {
      if cur !in proc.parents { break; }
      var ppid := proc.parents[cur];
      if ppid <= 1 { break; }
      if ppid == cur { break; }
      rootPid := ppid;
      rootComm := proc.Comm(ppid);
      cur := ppid;
      path := path + [ppid];
    }
    assert IsChain(proc, path);
  }

  lemma {:induction false} UpUp(proc: Proc, pid: u32, j: nat, k: nat)
    ensures Up(proc, pid, j + k) == Up(proc, Up(proc, pid, j), k)
    decreases j
  {
    if j > 0 && !Stops(proc, pid) {
      UpUp(proc, proc.parents[pid], j - 1, k);
    }
  }

  /** A chain goes where the walk goes. */
  lemma {:induction false} ChainIsUp(proc: Proc, path: seq<u32>, i: nat)
    requires IsChain(proc, path) && i < |path|
    ensures path[i] == Up(proc, path[0], i)
  {
    if i > 0 {
      ChainIsUp(proc, path, i - 1);
      assert IsLink(proc, path[i - 1], path[i]);
      UpUp(proc, path[0], i - 1, 1);
      assert Up(proc, path[i - 1], 1) == path[i] by {
        if !Stops(proc, path[i - 1]) { assert Up(proc, path[i], 0) == path[i]; }
      }
    }
  }

  /** The walk of at most `k` steps is a chain, cut short only where it stops. */
  lemma {:induction false} UpIsChain(proc: Proc, pid: u32, k: nat) returns (path: seq<u32>)
    ensures IsChain(proc, path) && path[0] == pid && path[|path| - 1] == Up(proc, pid, k)
    ensures |path| <= k + 1 && (|path| <= k ==> Stops(proc, Up(proc, pid, k)))
    decreases k
  {
    if k == 0 || Stops(proc, pid) {
      path := [pid];
    } else {
      var rest := UpIsChain(proc, proc.parents[pid], k - 1);
      path := [pid] + rest;
      assert IsLink(proc, pid, rest[0]);
      forall i, j | 0 <= i && j == i + 1 && j < |path| ensures IsLink(proc, path[i], path[j]) {
        if i > 0 { assert path[i] == rest[i - 1] && path[j] == rest[j - 1] && IsLink(proc, rest[i - 1], rest[j - 1]); }
      }
    }
  }

  /** A chain of at most 65 processes from `pid` to one whose parent is unknown, at most 1, or itself. */
  ghost predicate TopWithinLimit(proc: Proc, pid: u32)
  {
    exists path :: IsChain(proc, path) && path[0] == pid && |path| <= 65 && Ends(proc, path[|path| - 1])
  }

  /** A chain of 129 processes from `pid` whose 65th is also its last: a cycle whose length divides 64. */
  ghost predicate CyclesInStep(proc: Proc, pid: u32)
  {
    exists path :: IsChain(proc, path) && |path| == 129 && path[0] == pid && path[64] == path[128]
  }

  /** The result is the top of a chain exactly when some chain from the process reaches its top within the limit. */
  lemma ReachesTopIff(proc: Proc, pid: u32)
    ensures Ends(proc, Up(proc, pid, 64)) <==> TopWithinLimit(proc, pid)
  {
    var walk := UpIsChain(proc, pid, MAX_DEPTH);
    if path :| IsChain(proc, path) && path[0] == pid && |path| <= 65 && Ends(proc, path[|path| - 1]) {
      ChainIsUp(proc, path, |path| - 1);
      UpUp(proc, pid, |path| - 1, MAX_DEPTH + 1 - |path|);
    }
  }

  /** Every process on a chain that ends within the limit resolves to the same root, and so does the root. */
  lemma SameRoot(proc: Proc, pid: u32, k: nat)
    requires k <= 64 && TopWithinLimit(proc, pid)
    ensures Up(proc, Up(proc, pid, k), 64) == Up(proc, pid, 64)
    ensures Up(proc, Up(proc, pid, 64), 64) == Up(proc, pid, 64)
  {
    ReachesTopIff(proc, pid);
    UpUp(proc, pid, k, MAX_DEPTH - k);
    UpUp(proc, Up(proc, pid, k), MAX_DEPTH - k, k);
    UpUp(proc, pid, MAX_DEPTH, k);
  }

  /** Resolving twice changes nothing exactly when the top is within the limit or the chain cycles in step with it. */
  lemma IdempotentIff(proc: Proc, pid: u32)
    ensures Up(proc, Up(proc, pid, 64), 64) == Up(proc, pid, 64)
            <==> TopWithinLimit(proc, pid) || CyclesInStep(proc, pid)
  {
    ReachesTopIff(proc, pid);
    UpUp(proc, pid, MAX_DEPTH, MAX_DEPTH);
    var walk := UpIsChain(proc, pid, 2 * MAX_DEPTH);
    if |walk| == 2 * MAX_DEPTH + 1 {
      ChainIsUp(proc, walk, MAX_DEPTH);
    } else {
      ShortWalk(proc, pid, walk);
    }
    if path :| IsChain(proc, path) && |path| == 129 && path[0] == pid && path[64] == path[128] {
      ChainIsUp(proc, path, MAX_DEPTH);
      ChainIsUp(proc, path, 2 * MAX_DEPTH);
    }
  }

  /** On a walk that ends before 128 steps, the result repeats only if it was the end. */
  lemma ShortWalk(proc: Proc, pid: u32, walk: seq<u32>)
    requires IsChain(proc, walk) && walk[0] == pid && |walk| <= 2 * MAX_DEPTH && Stops(proc, walk[|walk| - 1])
    ensures Up(proc, Up(proc, pid, MAX_DEPTH), MAX_DEPTH) == Up(proc, pid, MAX_DEPTH)
            ==> Stops(proc, Up(proc, pid, MAX_DEPTH))
  {
    var n := |walk| - 1;
    ChainIsUp(proc, walk, n);
    UpUp(proc, pid, n, 2 * MAX_DEPTH - n);
    UpUp(proc, pid, MAX_DEPTH, MAX_DEPTH);
  }

  ghost predicate Acyclic(proc: Proc, rank: u32 -> nat)
  {
    forall p :: p in proc.parents && !Stops(proc, p) ==> rank(proc.parents[p]) < rank(p)
  }

  lemma {:induction false} UpRanks(proc: Proc, pid: u32, k: nat, rank: u32 -> nat)
    requires Acyclic(proc, rank)
    ensures rank(Up(proc, pid, k)) <= rank(pid)
    ensures Up(proc, pid, k) == pid <==> k == 0 || Stops(proc, pid)
    decreases k
  {
    if k > 0 && !Stops(proc, pid) { UpRanks(proc, proc.parents[pid], k - 1, rank); }
  }

  /** Without cycles only the limit matters. */
  lemma IdempotentWithoutCyclesIff(proc: Proc, pid: u32, rank: u32 -> nat)
    requires Acyclic(proc, rank)
    ensures Up(proc, Up(proc, pid, 64), 64) == Up(proc, pid, 64) <==> TopWithinLimit(proc, pid)
  {
    UpRanks(proc, Up(proc, pid, MAX_DEPTH), MAX_DEPTH, rank);
    ReachesTopIff(proc, pid);
  }

  /** Processes 2 to `last`, each the child of the one before, the first a child of process 1. */
  function Line(last: u32): Proc
  {
    Proc(if last < 2 then map[] else Line(last - 1).parents[last := last - 1], map[])
  }

  lemma {:induction false} LineParents(last: u32, pid: u32)
    ensures pid in Line(last).parents <==> 2 <= pid <= last
    ensures 2 <= pid <= last ==> Line(last).parents[pid] == pid - 1
  {
    if last >= 2 { LineParents(last - 1, pid); }
  }

  lemma {:induction false} UpTheLine(last: u32, pid: u32, k: nat)
    requires 2 <= pid <= last
    ensures Up(Line(last), pid, k) == if k < pid - 2 then pid - k else 2
    ensures Stops(Line(last), pid) <==> pid == 2
    decreases k
  {
    hide Line;
    LineParents(last, pid);
    if k > 0 && pid > 2 { UpTheLine(last, pid - 1, k - 1); }
  }

  /** A line of 66 processes: its last resolves to the second, which has a parent and resolves to the first. */
  lemma LongLine()
    ensures Up(Line(67), 67, 64) == 3 && !Ends(Line(67), 3) && Up(Line(67), 3, 64) == 2
    ensures !TopWithinLimit(Line(67), 67)
  {
    hide Line;
    UpTheLine(67, 67, MAX_DEPTH);
    UpTheLine(67, 3, MAX_DEPTH);
    ReachesTopIff(Line(67), 67);
  }
}
