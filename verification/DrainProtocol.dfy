/**
 * The double-buffer drain protocol as interleaved steps. Kernel writers read the active flag and then, later,
 * increment the map they chose. The drainer flips the flag, reads the other map key by key, emits what it read,
 * and removes the keys it read. The destination log and the dry-run log are two instances, keyed by
 * destination and by address.
 */
module DrainProtocol {
  import opened Prelude

  datatype Buf = A | B {
    function Other(): Buf { if A? then B else A }
  }

  /** A writer that has read the flag and not yet touched the map. */
  datatype Writer<K(==)> = Writer(key: K, buf: Buf)

  type Entries<K(==)> = seq<(K, nat)>

  datatype Phase<K(==)> =
    | Idle
    | Flipped
    | Scanning(must: set<K>, snap: Entries<K>)
    | Emitting(snap: Entries<K>, done: nat)
    | Removing(snap: Entries<K>, done: nat)

  /** The shared maps and flag, both sides' progress, and three records of what happened so far. */
  datatype State<K(==)> = State(
    active: Buf, a: map<K, nat>, b: map<K, nat>,
    pending: multiset<Writer<K>>, phase: Phase<K>,
    log: Entries<K>, recorded: multiset<K>, lost: multiset<K>)
  {
    function MapOf(buf: Buf): map<K, nat> { if buf.A? then a else b }

    function WithMap(buf: Buf, m: map<K, nat>): State<K>
    {
      if buf.A? then this.(a := m) else this.(b := m)
    }

    /** The buffer the drainer works on; while idle, the one that no new writer chooses. */
    function Drained(): Buf { active.Other() }
  }

  function Init<K(==)>(): State<K>
  {
    State(A, map[], map[], multiset{}, Idle, [], multiset{}, multiset{})
  }

  function KeysOf<K(==)>(es: Entries<K>): set<K> { set e | e in es :: e.0 }

  /** Keys that were read and are not removed yet: what a writer adds to them now is overlooked. */
  function Held<K(==)>(s: State<K>): set<K>
  {
    match s.phase
    case Scanning(_, snap) => KeysOf(snap)
    case Emitting(snap, _) => KeysOf(snap)
    case Removing(snap, done) => if done <= |snap| then KeysOf(snap[done..]) else {}
    case _ => {}
  }

  // ----------------------------------------------------------------- steps

  datatype Action<K(==)> =
    | Choose(key: K)
    | Record(writer: Writer<K>)
    | Flip
    | BeginScan
    | ReadKey(key: K)
    | EndScan
    | EmitNext
    | EndEmit
    | RemoveNext
    | Finish

  /** `incr_dst` / `incr_ip`; the insert of a new key into a full map fails. */
  function Bumped<K(==)>(m: map<K, nat>, key: K): Option<map<K, nat>>
  {
    if key in m then Some(m[key := m[key] + 1])
    else if |m| >= MAX_DST_ENTRIES then None
    else Some(m[key := 1])
  }

  function RecordStep<K(==)>(s: State<K>, w: Writer<K>): State<K>
  {
    var m := Bumped(s.MapOf(w.buf), w.key);
    var s' := s.(pending := s.pending - multiset{w});
    if m.None? then s'
    else
      s'.WithMap(w.buf, m.value).(
        recorded := s.recorded + multiset{w.key},
        lost := if w.buf == s.Drained() && w.key in Held(s) then s.lost + multiset{w.key} else s.lost)
  }

  /** One atomic step; `None` when the action is not enabled. */
  function Step<K(==)>(s: State<K>, action: Action<K>): Option<State<K>>
  {
    match action
    case Choose(key) => Some(s.(pending := s.pending + multiset{Writer(key, s.active)}))
    case Record(w) => if w in s.pending then Some(RecordStep(s, w)) else None
    case Flip => if s.phase.Idle? then Some(s.(active := s.active.Other(), phase := Flipped)) else None
    case BeginScan =>
      if s.phase.Flipped? then Some(s.(phase := Scanning(s.MapOf(s.Drained()).Keys, []))) else None
    case ReadKey(key) =>
      if s.phase.Scanning? && key in s.MapOf(s.Drained()) && key !in KeysOf(s.phase.snap) then
        Some(s.(phase := Scanning(s.phase.must, s.phase.snap + [(key, s.MapOf(s.Drained())[key])])))
      else None
    case EndScan =>
      if s.phase.Scanning? && s.phase.must <= KeysOf(s.phase.snap) then Some(s.(phase := Emitting(s.phase.snap, 0)))
      else None
    case EmitNext =>
      if s.phase.Emitting? && s.phase.done < |s.phase.snap| then
        Some(s.(log := s.log + [s.phase.snap[s.phase.done]], phase := Emitting(s.phase.snap, s.phase.done + 1)))
      else None
    case EndEmit =>
      if s.phase.Emitting? && s.phase.done == |s.phase.snap| then Some(s.(phase := Removing(s.phase.snap, 0))) else None
    case RemoveNext =>
      if s.phase.Removing? && s.phase.done < |s.phase.snap| && s.phase.snap[s.phase.done].0 in s.MapOf(s.Drained()) then
        Some(s.WithMap(s.Drained(), s.MapOf(s.Drained()) - {s.phase.snap[s.phase.done].0})
              .(phase := Removing(s.phase.snap, s.phase.done + 1)))
      else None
    case Finish =>
      if s.phase.Removing? && s.phase.done == |s.phase.snap| then Some(s.(phase := Idle)) else None
  }

  function Run<K(==)>(s: State<K>, actions: seq<Action<K>>): Option<State<K>>
  {
    if actions == [] then Some(s)
    else
      var before := Run(s, actions[..|actions| - 1]);
      if before.None? then None else Step(before.value, actions[|actions| - 1])
  }

  // ------------------------------------------------------------ accounting

  /** Sum of the counts that `es` lists for `k`. */
  function Total<K(==)>(es: Entries<K>, k: K): nat
  {
    if es == [] then 0
    else (if es[0].0 == k then es[0].1 else 0) + Total(es[1..], k)
  }

  lemma {:induction false} TotalConcat<K>(es: Entries<K>, fs: Entries<K>, k: K)
    ensures Total(es + fs, k) == Total(es, k) + Total(fs, k)
  {
    if es == [] {
      assert es + fs == fs;
    } else {
      TotalConcat(es[1..], fs, k);
      assert (es + fs)[1..] == es[1..] + fs;
    }
  }

  lemma TotalSnoc<K>(es: Entries<K>, e: (K, nat), k: K)
    ensures Total(es + [e], k) == Total(es, k) + if e.0 == k then e.1 else 0
  {
    TotalConcat(es, [e], k);
  }

  lemma TotalDrop<K>(es: Entries<K>, i: nat, k: K)
    requires i < |es|
    ensures Total(es[i..], k) == (if es[i].0 == k then es[i].1 else 0) + Total(es[i + 1..], k)
  {
    assert es[i..][1..] == es[i + 1..];
  }

  lemma {:induction false} TotalAbsent<K>(es: Entries<K>, k: K)
    requires k !in KeysOf(es)
    ensures Total(es, k) == 0
  {
    if es != [] {
      assert es[0] in es;
      assert forall e :: e in es[1..] ==> e in es;
      TotalAbsent(es[1..], k);
    }
  }

  function CountIn<K(==)>(m: map<K, nat>, k: K): nat { if k in m then m[k] else 0 }

  /** Read but not emitted yet. */
  function Owed<K(==)>(s: State<K>, k: K): nat
  {
    match s.phase
    case Scanning(_, snap) => Total(snap, k)
    case Emitting(snap, done) => if done <= |snap| then Total(snap[done..], k) else 0
    case _ => 0
  }

  /** What the two maps hold for `k` and no snapshot has taken over. */
  function Kept<K(==)>(s: State<K>, k: K): nat
  {
    CountIn(s.MapOf(s.active), k) + if k in Held(s) then 0 else CountIn(s.MapOf(s.Drained()), k)
  }

  predicate Balanced<K(==)>(s: State<K>, k: K)
  {
    s.recorded[k] == Total(s.log, k) + Owed(s, k) + Kept(s, k) + s.lost[k]
  }

  ghost predicate Distinct<K>(es: Entries<K>)
  {
    forall i, j :: 0 <= i < j < |es| ==> es[i].0 != es[j].0
  }

  /** Shape of a snapshot: no key twice, and each key not removed yet is still in the drained map. */
  ghost predicate SnapshotIn<K>(snap: Entries<K>, from: nat, m: map<K, nat>)
  {
    && from <= |snap|
    && Distinct(snap)
    && forall i :: from <= i < |snap| ==> snap[i].0 in m
  }

  ghost predicate PhaseOk<K>(s: State<K>)
  {
    match s.phase
    case Idle => true
    case Flipped => true
    case Scanning(must, snap) => must <= s.MapOf(s.Drained()).Keys && SnapshotIn(snap, 0, s.MapOf(s.Drained()))
    case Emitting(snap, done) => done <= |snap| && SnapshotIn(snap, 0, s.MapOf(s.Drained()))
    case Removing(snap, done) => SnapshotIn(snap, done, s.MapOf(s.Drained()))
  }

  lemma KeysOfSnoc<K>(es: Entries<K>, e: (K, nat))
    ensures KeysOf(es + [e]) == KeysOf(es) + {e.0}
  {
    assert forall f :: f in es + [e] <==> f in es || f == e;
  }

  lemma KeysOfDrop<K>(es: Entries<K>, i: nat)
    requires i < |es|
    ensures KeysOf(es[i..]) == {es[i].0} + KeysOf(es[i + 1..])
    ensures Distinct(es) ==> es[i].0 !in KeysOf(es[i + 1..])
  {
    assert es[i..] == [es[i]] + es[i + 1..];
    assert forall f :: f in es[i..] <==> f == es[i] || f in es[i + 1..];
  }

  lemma SnapshotGrows<K>(snap: Entries<K>, from: nat, m: map<K, nat>, m': map<K, nat>)
    requires SnapshotIn(snap, from, m) && m.Keys <= m'.Keys
    ensures SnapshotIn(snap, from, m')
  {
    forall i | from <= i < |snap| ensures snap[i].0 in m' { assert snap[i].0 in m; }
  }

  lemma RecordGrows<K>(s: State<K>, w: Writer<K>, buf: Buf)
    ensures s.MapOf(buf).Keys <= RecordStep(s, w).MapOf(buf).Keys
    ensures RecordStep(s, w).phase == s.phase && RecordStep(s, w).active == s.active
  {
    hide Held, Bumped;
    BumpedCount(s.MapOf(w.buf), w.key, w.key);
  }

  lemma RecordKeepsPhaseOk<K>(s: State<K>, w: Writer<K>)
    requires PhaseOk(s)
    ensures PhaseOk(RecordStep(s, w))
  {
    hide RecordStep, SnapshotIn;
    var s' := RecordStep(s, w);
    RecordGrows(s, w, s.Drained());
    match s.phase
    case Scanning(_, snap) => SnapshotGrows(snap, 0, s.MapOf(s.Drained()), s'.MapOf(s.Drained()));
    case Emitting(snap, _) => SnapshotGrows(snap, 0, s.MapOf(s.Drained()), s'.MapOf(s.Drained()));
    case Removing(snap, done) => SnapshotGrows(snap, done, s.MapOf(s.Drained()), s'.MapOf(s.Drained()));
    case _ =>
  }

  lemma SnapshotReads<K>(snap: Entries<K>, m: map<K, nat>, key: K)
    requires SnapshotIn(snap, 0, m) && key in m && key !in KeysOf(snap)
    ensures SnapshotIn(snap + [(key, m[key])], 0, m)
  {
    assert forall i :: 0 <= i < |snap| ==> snap[i] in snap;
  }

  lemma SnapshotRemoves<K>(snap: Entries<K>, from: nat, m: map<K, nat>)
    requires SnapshotIn(snap, from, m) && from < |snap|
    ensures SnapshotIn(snap, from + 1, m - {snap[from].0})
  {
  }

  lemma StepKeepsPhaseOk<K>(s: State<K>, action: Action<K>)
    requires PhaseOk(s) && Step(s, action).Some?
    ensures PhaseOk(Step(s, action).value)
  {
    hide RecordStep, KeysOf;
    match action
    case Record(w) => RecordKeepsPhaseOk(s, w);
    case ReadKey(key) => SnapshotReads(s.phase.snap, s.MapOf(s.Drained()), key);
    case RemoveNext => SnapshotRemoves(s.phase.snap, s.phase.done, s.MapOf(s.Drained()));
    case _ =>
  }

  lemma BumpedCount<K>(m: map<K, nat>, key: K, k: K)
    ensures Bumped(m, key).Some? ==>
              && m.Keys <= Bumped(m, key).value.Keys
              && CountIn(Bumped(m, key).value, k) == CountIn(m, k) + if k == key then 1 else 0
  {
  }

  lemma RecordBalances<K>(s: State<K>, w: Writer<K>, k: K)
    requires PhaseOk(s) && Balanced(s, k)
    ensures Balanced(RecordStep(s, w), k)
  {
    hide Bumped, CountIn, Held, Owed, Total, PhaseOk;
    BumpedCount(s.MapOf(w.buf), w.key, k);
    SamePhaseSameBooks(s, RecordStep(s, w), k);
  }

  lemma SamePhaseSameBooks<K>(s: State<K>, s': State<K>, k: K)
    requires s'.phase == s.phase
    ensures Held(s') == Held(s) && Owed(s', k) == Owed(s, k)
  {
  }

  lemma ReadBalances<K>(s: State<K>, key: K, k: K)
    requires PhaseOk(s) && Balanced(s, k) && Step(s, ReadKey(key)).Some?
    ensures Balanced(Step(s, ReadKey(key)).value, k)
  {
    hide KeysOf, Total;
    var e := (key, s.MapOf(s.Drained())[key]);
    TotalSnoc(s.phase.snap, e, k);
    KeysOfSnoc(s.phase.snap, e);
    if key == k { TotalAbsent(s.phase.snap, k); }
  }

  lemma EmitBalances<K>(s: State<K>, k: K)
    requires PhaseOk(s) && Balanced(s, k) && Step(s, EmitNext).Some?
    ensures Balanced(Step(s, EmitNext).value, k)
  {
    hide KeysOf, Total;
    TotalSnoc(s.log, s.phase.snap[s.phase.done], k);
    TotalDrop(s.phase.snap, s.phase.done, k);
    TotalEmpty(s.phase.snap, k);
  }

  lemma TotalEmpty<K>(es: Entries<K>, k: K)
    ensures Total(es[|es|..], k) == 0
  {
  }

  lemma RemoveBalances<K>(s: State<K>, k: K)
    requires PhaseOk(s) && Balanced(s, k) && Step(s, RemoveNext).Some?
    ensures Balanced(Step(s, RemoveNext).value, k)
  {
    hide KeysOf, Total;
    KeysOfDrop(s.phase.snap, s.phase.done);
  }

  /** Every step keeps the account of every key. */
  lemma StepBalances<K>(s: State<K>, action: Action<K>, k: K)
    requires PhaseOk(s) && Balanced(s, k) && Step(s, action).Some?
    ensures Balanced(Step(s, action).value, k)
  {
    match action
    case Record(w) => RecordBalances(s, w, k);
    case ReadKey(key) => ReadBalances(s, key, k);
    case EmitNext => EmitBalances(s, k);
    case RemoveNext => RemoveBalances(s, k);
    case EndScan => assert s.phase.snap[0..] == s.phase.snap;
    case EndEmit => assert s.phase.snap[0..] == s.phase.snap;
    case _ =>
  }

  lemma {:induction false} EveryRunKeeps<K>(actions: seq<Action<K>>, k: K)
    requires Run(Init(), actions).Some?
    ensures PhaseOk(Run(Init(), actions).value) && Balanced(Run(Init(), actions).value, k)
  {
    hide Step, Balanced;
    if actions == [] {
      InitBalanced(k);
    } else {
      var init := actions[..|actions| - 1];
      EveryRunKeeps(init, k);
      StepKeepsPhaseOk(Run(Init(), init).value, actions[|actions| - 1]);
      StepBalances(Run(Init(), init).value, actions[|actions| - 1], k);
    }
  }

  lemma InitBalanced<K>(k: K)
    ensures Balanced(Init(), k)
  {
  }

  /**
   * Over every interleaving, between two drains: every recorded event of a key was emitted, is in one of
   * the maps, or was lost.
   */
  lemma AccountBetweenDrains<K>(actions: seq<Action<K>>, k: K)
    requires Run(Init(), actions).Some? && Run(Init(), actions).value.phase.Idle?
    ensures var s := Run(Init(), actions).value;
            s.recorded[k] == Total(s.log, k) + CountIn(s.a, k) + CountIn(s.b, k) + s.lost[k]
  {
    EveryRunKeeps(actions, k);
  }

  /** A lost event is one more increment of a key that the drainer read and has yet to remove. */
  lemma OnlyHeldKeysLose<K>(s: State<K>, action: Action<K>)
    requires Step(s, action).Some? && Step(s, action).value.lost != s.lost
    ensures action.Record? && action.writer.buf == s.Drained() && action.writer.key in Held(s)
    ensures Step(s, action).value.lost == s.lost + multiset{action.writer.key}
    ensures Step(s, action).value.recorded == s.recorded + multiset{action.writer.key}
  {
  }

  /** `remove` never fails, in any interleaving: writers only add keys. */
  lemma RemoveNeverFails<K>(actions: seq<Action<K>>)
    requires Run(Init(), actions).Some? && Run(Init(), actions).value.phase.Removing?
    ensures var s := Run(Init(), actions).value;
            s.phase.done < |s.phase.snap| ==> Step(s, RemoveNext).Some?
  {
    var s := Run(Init(), actions).value;
    if s.phase.done < |s.phase.snap| { EveryRunKeeps(actions, s.phase.snap[s.phase.done].0); }
  }

  /** From every reachable state in the middle of a drain, some step of the drainer is enabled. */
  lemma DrainerNeverStuck<K>(actions: seq<Action<K>>, k: K) returns (next: Action<K>)
    requires Run(Init(), actions).Some? && !Run(Init(), actions).value.phase.Idle?
    ensures !next.Choose? && !next.Record? && Step(Run(Init(), actions).value, next).Some?
  {
    EveryRunKeeps(actions, k);
    var s := Run(Init(), actions).value;
    match s.phase
    case Flipped => next := BeginScan;
    case Scanning(must, snap) =>
      if must <= KeysOf(snap) {
        next := EndScan;
      } else {
        var key :| key in must && key !in KeysOf(snap);
        next := ReadKey(key);
      }
    case Emitting(snap, done) => next := if done < |snap| then EmitNext else EndEmit;
    case Removing(snap, done) => next := if done < |snap| then RemoveNext else Finish;
  }

  // ------------------------------------------- keys that come after the snapshot

  /** No drain of `buf` is going on, or it is done with reading and did not read `k`. */
  ghost predicate NotRead<K>(s: State<K>, buf: Buf, k: K)
  {
    || s.Drained() != buf
    || s.phase.Idle?
    || s.phase.Flipped?
    || ((s.phase.Emitting? || s.phase.Removing?) && k !in KeysOf(s.phase.snap))
  }

  /** The step puts one more event of `k` into `buf`. */
  function Adds<K(==)>(s: State<K>, action: Action<K>, buf: Buf, k: K): nat
  {
    if action == Record(Writer(k, buf)) && Bumped(s.MapOf(buf), k).Some? then 1 else 0
  }

  /** Events of `k` that a run puts into `buf`. */
  function Added<K(==)>(s: State<K>, actions: seq<Action<K>>, buf: Buf, k: K): nat
  {
    if actions == [] then 0
    else
      var init := actions[..|actions| - 1];
      Added(s, init, buf, k)
      + (if Run(s, init).Some? then Adds(Run(s, init).value, actions[|actions| - 1], buf, k) else 0)
  }

  /** No drain of `buf` starts reading in the run. */
  ghost predicate NoScanOf<K>(s: State<K>, actions: seq<Action<K>>, buf: Buf)
  {
    actions == [] ||
    (var init := actions[..|actions| - 1];
     && NoScanOf(s, init, buf)
     && (actions[|actions| - 1].BeginScan? && Run(s, init).Some? ==> Run(s, init).value.Drained() != buf))
  }

  lemma RecordInBuf<K>(s: State<K>, w: Writer<K>, buf: Buf, k: K)
    ensures var s' := RecordStep(s, w);
            && s'.phase == s.phase && s'.active == s.active
            && CountIn(s'.MapOf(buf), k) == CountIn(s.MapOf(buf), k) + Adds(s, Record(w), buf, k)
            && (k !in Held(s) && w == Writer(k, buf) ==> s'.lost == s.lost)
  {
    hide Held, Bumped, CountIn;
    BumpedCount(s.MapOf(w.buf), w.key, k);
  }

  lemma NotReadStep<K>(s: State<K>, action: Action<K>, buf: Buf, k: K)
    requires NotRead(s, buf, k) && Step(s, action).Some?
    requires action.BeginScan? ==> s.Drained() != buf
    ensures var s' := Step(s, action).value;
            && NotRead(s', buf, k)
            && CountIn(s'.MapOf(buf), k) == CountIn(s.MapOf(buf), k) + Adds(s, action, buf, k)
            && (action == Record(Writer(k, buf)) && s.Drained() == buf ==> s'.lost == s.lost)
  {
    hide KeysOf, RecordStep;
    match action
    case Record(w) =>
      RecordInBuf(s, w, buf, k);
      if !s.phase.Idle? && !s.phase.Flipped? && s.Drained() == buf { HeldInSnap(s); }
    case RemoveNext => InKeysOf(s.phase.snap, s.phase.done);
    case _ =>
  }

  /**
   * Over every run until the next drain of `buf` starts reading: the map holds what it held of a key that was
   * not read, and every event of the key that was put in since.
   */
  lemma {:induction false} UnreadKeySurvives<K>(s: State<K>, actions: seq<Action<K>>, buf: Buf, k: K)
    requires NotRead(s, buf, k) && Run(s, actions).Some? && NoScanOf(s, actions, buf)
    ensures var s' := Run(s, actions).value;
            && NotRead(s', buf, k)
            && CountIn(s'.MapOf(buf), k) == CountIn(s.MapOf(buf), k) + Added(s, actions, buf, k)
  {
    hide Step, NotRead, Adds;
    if actions != [] {
      var init := actions[..|actions| - 1];
      UnreadKeySurvives(s, init, buf, k);
      NotReadStep(Run(s, init).value, actions[|actions| - 1], buf, k);
    }
  }

  /**
   * A scan started when the log had `base` events of `k` and the map `held`: until `k` is read the map holds as
   * many, then the snapshot does, and what the snapshot lists goes to the log.
   */
  ghost predicate Underway<K>(s: State<K>, k: K, base: nat, held: nat)
  {
    match s.phase
    case Scanning(must, snap) =>
      && k in must && Total(s.log, k) >= base
      && if k in KeysOf(snap) then Total(snap, k) >= held else CountIn(s.MapOf(s.Drained()), k) >= held
    case Emitting(snap, done) => done <= |snap| && Total(s.log, k) + Total(snap[done..], k) >= base + held
    case _ => Total(s.log, k) >= base + held
  }

  lemma UnderwayRecord<K>(s: State<K>, w: Writer<K>, k: K, base: nat, held: nat)
    requires Underway(s, k, base, held)
    ensures Underway(RecordStep(s, w), k, base, held) && RecordStep(s, w).log == s.log
  {
    hide Held, Bumped, CountIn, KeysOf, Total;
    BumpedCount(s.MapOf(w.buf), w.key, k);
  }

  lemma UnderwayRead<K>(s: State<K>, key: K, k: K, base: nat, held: nat)
    requires Underway(s, k, base, held) && Step(s, ReadKey(key)).Some?
    ensures Underway(Step(s, ReadKey(key)).value, k, base, held)
  {
    hide KeysOf, Total;
    var e := (key, s.MapOf(s.Drained())[key]);
    KeysOfSnoc(s.phase.snap, e);
    TotalSnoc(s.phase.snap, e, k);
  }

  lemma UnderwayEmit<K>(s: State<K>, k: K, base: nat, held: nat)
    requires Underway(s, k, base, held) && Step(s, EmitNext).Some?
    ensures Underway(Step(s, EmitNext).value, k, base, held)
  {
    hide KeysOf, Total;
    TotalSnoc(s.log, s.phase.snap[s.phase.done], k);
    TotalDrop(s.phase.snap, s.phase.done, k);
  }

  lemma UnderwayStep<K>(s: State<K>, action: Action<K>, k: K, base: nat, held: nat)
    requires Underway(s, k, base, held) && Step(s, action).Some? && !action.BeginScan?
    ensures Underway(Step(s, action).value, k, base, held)
  {
    hide KeysOf, Total, RecordStep, CountIn;
    match action
    case Record(w) => UnderwayRecord(s, w, k, base, held);
    case ReadKey(key) => UnderwayRead(s, key, k, base, held);
    case EmitNext => UnderwayEmit(s, k, base, held);
    case EndScan => assert s.phase.snap[0..] == s.phase.snap;
    case EndEmit => TotalEmpty(s.phase.snap, k);
    case _ =>
  }

  lemma {:induction false} UnderwayRun<K>(s: State<K>, actions: seq<Action<K>>, k: K, base: nat, held: nat)
    requires Underway(s, k, base, held) && Run(s, actions).Some? && forall a :: a in actions ==> !a.BeginScan?
    ensures Underway(Run(s, actions).value, k, base, held)
  {
    hide Step, Underway;
    if actions != [] {
      var init := actions[..|actions| - 1];
      assert forall a :: a in init ==> a in actions;
      UnderwayRun(s, init, k, base, held);
      UnderwayStep(Run(s, init).value, actions[|actions| - 1], k, base, held);
    }
  }

  /**
   * Whatever the map holds of a key when a drain starts reading is in the log once the drain is past emitting,
   * in every run.
   */
  lemma DrainEmitsHeld<K>(s: State<K>, actions: seq<Action<K>>, k: K)
    requires s.phase.Flipped? && k in s.MapOf(s.Drained())
    requires Run(Step(s, BeginScan).value, actions).Some? && forall a :: a in actions ==> !a.BeginScan?
    ensures var s' := Run(Step(s, BeginScan).value, actions).value;
            s'.phase.Removing? || s'.phase.Idle? || s'.phase.Flipped? ==>
              Total(s'.log, k) >= Total(s.log, k) + CountIn(s.MapOf(s.Drained()), k)
  {
    hide Total, CountIn, Run;
    UnderwayRun(Step(s, BeginScan).value, actions, k, Total(s.log, k), CountIn(s.MapOf(s.Drained()), k));
  }

  lemma HeldInSnap<K>(s: State<K>)
    requires s.phase.Emitting? || s.phase.Removing?
    ensures Held(s) <= KeysOf(s.phase.snap)
  {
  }

  lemma InKeysOf<K>(es: Entries<K>, i: nat)
    requires i < |es|
    ensures es[i].0 in KeysOf(es)
  {
    assert es[i] in es;
  }

  // ------------------------------------------------------------ quiet runs

  /** No writer that chose `buf` is still to act. */
  ghost predicate NonePending<K>(s: State<K>, buf: Buf)
  {
    forall w :: w in s.pending ==> w.buf != buf
  }

  /** At every start of a scan, no writer is still to act on the map about to be drained. */
  ghost predicate Quiet<K>(actions: seq<Action<K>>)
  {
    actions == [] ||
    (var init := actions[..|actions| - 1];
     && Quiet(init)
     && (actions[|actions| - 1].BeginScan? && Run(Init(), init).Some? ==>
           NonePending(Run(Init(), init).value, Run(Init(), init).value.Drained())))
  }

  ghost predicate QuietState<K>(s: State<K>)
  {
    var m := s.MapOf(s.Drained());
    && s.lost == multiset{}
    && (s.phase.Flipped? || NonePending(s, s.Drained()))
    && match s.phase
       case Idle => m == map[]
       case Flipped => true
       case Scanning(must, snap) => must == m.Keys
       case Emitting(snap, _) => KeysOf(snap) == m.Keys
       case Removing(snap, done) => done <= |snap| && KeysOf(snap[done..]) == m.Keys
  }

  /** A record loses nothing and leaves the drained map alone unless it is late. */
  lemma RecordOnTime<K>(s: State<K>, w: Writer<K>)
    requires w in s.pending && (s.phase.Flipped? || w.buf == s.active)
    ensures var s' := RecordStep(s, w);
            && s'.lost == s.lost && s'.phase == s.phase && s'.active == s.active
            && (w.buf == s.active ==> s'.MapOf(s.Drained()) == s.MapOf(s.Drained()))
            && forall v :: v in s'.pending ==> v in s.pending
  {
    hide Bumped;
  }

  lemma QuietRecord<K>(s: State<K>, w: Writer<K>)
    requires QuietState(s) && w in s.pending
    ensures QuietState(RecordStep(s, w))
  {
    hide RecordStep, KeysOf;
    RecordOnTime(s, w);
  }

  lemma QuietChoose<K>(s: State<K>, key: K)
    requires QuietState(s)
    ensures QuietState(Step(s, Choose(key)).value)
  {
    hide KeysOf;
    assert forall w :: w in s.pending + multiset{Writer(key, s.active)} ==> w in s.pending || w.buf == s.active;
  }

  lemma QuietRemove<K>(s: State<K>)
    requires PhaseOk(s) && QuietState(s) && Step(s, RemoveNext).Some?
    ensures QuietState(Step(s, RemoveNext).value)
  {
    hide KeysOf;
    KeysOfDrop(s.phase.snap, s.phase.done);
  }

  lemma QuietFinish<K>(s: State<K>)
    requires QuietState(s) && Step(s, Finish).Some?
    ensures QuietState(Step(s, Finish).value)
  {
    assert s.MapOf(s.Drained()).Keys == {};
  }

  lemma QuietStep<K>(s: State<K>, action: Action<K>)
    requires PhaseOk(s) && QuietState(s) && Step(s, action).Some?
    requires action.BeginScan? ==> NonePending(s, s.Drained())
    ensures QuietState(Step(s, action).value)
  {
    hide RecordStep, KeysOf;
    match action
    case Choose(key) => QuietChoose(s, key);
    case Record(w) => QuietRecord(s, w);
    case EndScan => SnapKeysInMap(s.phase.snap, s.MapOf(s.Drained()));
    case EndEmit => assert s.phase.snap[0..] == s.phase.snap;
    case RemoveNext => QuietRemove(s);
    case Finish => QuietFinish(s);
    case _ =>
  }

  lemma SnapKeysInMap<K>(snap: Entries<K>, m: map<K, nat>)
    requires SnapshotIn(snap, 0, m)
    ensures KeysOf(snap) <= m.Keys
  {
  }

  lemma {:induction false} QuietRunStays<K>(actions: seq<Action<K>>, k: K)
    requires Quiet(actions) && Run(Init(), actions).Some?
    ensures QuietState(Run(Init(), actions).value)
  {
    hide Step, QuietState;
    if actions == [] {
      InitQuiet<K>();
    } else {
      var init := actions[..|actions| - 1];
      QuietRunStays(init, k);
      EveryRunKeeps(init, k);
      QuietStep(Run(Init(), init).value, actions[|actions| - 1]);
    }
  }

  lemma InitQuiet<K>()
    ensures QuietState(Init<K>())
  {
  }

  /**
   * If no writer is late at any scan, nothing is ever lost; between drains the inactive map is empty, and
   * every recorded event was emitted once or is in the active map.
   */
  lemma QuietRunsLoseNothing<K>(actions: seq<Action<K>>, k: K)
    requires Quiet(actions) && Run(Init(), actions).Some?
    ensures var s := Run(Init(), actions).value;
            && s.lost == multiset{}
            && (s.phase.Idle? ==>
                  && s.MapOf(s.Drained()) == map[]
                  && s.recorded[k] == Total(s.log, k) + CountIn(s.MapOf(s.active), k))
  {
    QuietRunStays(actions, k);
    EveryRunKeeps(actions, k);
  }

  /** One late writer is enough to lose an event: two are recorded, one is emitted, the maps end empty. */
  lemma LateWriterLoses<K>(k: K)
    ensures exists actions: seq<Action<K>> ::
              Run(Init(), actions) == Some(State(B, map[], map[], multiset{}, Idle, [(k, 1)], multiset{k, k}, multiset{k}))
  {
    hide Run;
    var snap, m2 := [(k, 1)], map[k := 2];
    var s9, a9 := LateWriterHits(k);
    var s10 := s9.(phase := Removing(snap, 0));
    var a10 := Reach(s9, s10, a9, EndEmit);
    var s11 := s9.(a := map[], phase := Removing(snap, 1));
    assert m2 - {k} == map[];
    var a11 := Reach(s10, s11, a10, RemoveNext);
    var a12 := Reach(s11, s11.(phase := Idle), a11, Finish);
  }

  /** The waiting writer acts after its key was read and emitted. */
  lemma LateWriterHits<K>(k: K) returns (s: State<K>, actions: seq<Action<K>>)
    ensures s == State(B, map[k := 2], map[], multiset{}, Emitting([(k, 1)], 1), [(k, 1)], multiset{k, k}, multiset{k})
    ensures Run(Init(), actions) == Some(s)
  {
    hide Run;
    var s8, a8 := LateWriterRead(k);
    var w, snap := Writer(k, A), [(k, 1)];
    assert snap[0] in snap && KeysOf(snap) == {k};
    assert s8.a[k := 2] == map[k := 2] && multiset{k} + multiset{k} == multiset{k, k};
    assert s8.lost + multiset{k} == multiset{k} && s8.pending - multiset{w} == multiset{};
    s := State(B, map[k := 2], map[], multiset{}, Emitting(snap, 1), snap, multiset{k, k}, multiset{k});
    assert RecordStep(s8, w) == s;
    hide RecordStep, KeysOf;
    actions := Reach(s8, s, a8, Record(w));
  }

  /** Its key is read and emitted while the writer waits. */
  lemma LateWriterRead<K>(k: K) returns (s: State<K>, actions: seq<Action<K>>)
    ensures s == State(B, map[k := 1], map[], multiset{Writer(k, A)}, Emitting([(k, 1)], 1), [(k, 1)], multiset{k}, multiset{})
    ensures Run(Init(), actions) == Some(s)
  {
    hide Run, RecordStep;
    var s5, a5 := LateWriterWaits(k);
    var snap := [(k, 1)];
    assert [] + snap == snap && snap[0] in snap && KeysOf(snap) == {k} && KeysOf<K>([]) == {};
    hide KeysOf;
    var s6 := s5.(phase := Scanning({k}, snap));
    var a6 := Reach(s5, s6, a5, ReadKey(k));
    var s7 := s5.(phase := Emitting(snap, 0));
    var a7 := Reach(s6, s7, a6, EndScan);
    s := s5.(phase := Emitting(snap, 1), log := snap);
    actions := Reach(s7, s, a7, EmitNext);
  }

  /** A drain begins while a writer of a key that the map already holds is still to act. */
  lemma LateWriterWaits<K>(k: K) returns (s: State<K>, actions: seq<Action<K>>)
    ensures s == State(B, map[k := 1], map[], multiset{Writer(k, A)}, Scanning({k}, []), [], multiset{k}, multiset{})
    ensures Run(Init(), actions) == Some(s)
  {
    assert Run(Init<K>(), []) == Some(Init<K>());
    hide Run;
    var w, m1, none: multiset<K> := Writer(k, A), map[k := 1], multiset{};
    var late, early: multiset<Writer<K>> := multiset{w}, multiset{};
    assert early + late == late && late - late == early && none + multiset{k} == multiset{k};
    var s1 := State(A, map[], map[], late, Idle, [], none, none);
    var a1 := Reach(Init(), s1, [], Choose(k));
    var s2 := State(A, m1, map[], early, Idle, [], multiset{k}, none);
    assert s1.a[k := 1] == m1 && Bumped(s1.a, k) == Some(m1);
    assert RecordStep(s1, w) == s2;
    var a2 := Reach(s1, s2, a1, Record(w));
    var s3 := s2.(pending := late);
    var a3 := Reach(s2, s3, a2, Choose(k));
    var s4 := s3.(active := B, phase := Flipped);
    var a4 := Reach(s3, s4, a3, Flip);
    assert m1.Keys == {k};
    s := s4.(phase := Scanning({k}, []));
    actions := Reach(s4, s, a4, BeginScan);
  }

  lemma Reach<K>(s: State<K>, s': State<K>, actions: seq<Action<K>>, action: Action<K>) returns (longer: seq<Action<K>>)
    requires Run(Init(), actions) == Some(s) && Step(s, action) == Some(s')
    ensures longer == actions + [action] && Run(Init(), longer) == Some(s')
  {
    longer := actions + [action];
    RunSnoc(Init(), actions, action);
  }

  lemma RunSnoc<K>(s: State<K>, actions: seq<Action<K>>, action: Action<K>)
    ensures Run(s, actions + [action]) ==
            if Run(s, actions).None? then None else Step(Run(s, actions).value, action)
  {
    assert (actions + [action])[..|actions|] == actions;
  }
}
