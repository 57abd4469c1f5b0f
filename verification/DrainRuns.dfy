/** Runs of the drain protocol in which a record, or a drain, is not interrupted: the runs of single-threaded code. */
module DrainRuns {
  import opened Prelude
  import opened DrainProtocol

  /** `actions` is a quiet run of the protocol from its initial state to `s`. */
  ghost predicate IsRunTo<K>(actions: seq<Action<K>>, s: State<K>)
  {
    Run(Init(), actions) == Some(s) && Quiet(actions)
  }

  ghost function Extend<K>(actions: seq<Action<K>>, s: State<K>, action: Action<K>, s': State<K>): (r: seq<Action<K>>)
    requires IsRunTo(actions, s) && Step(s, action) == Some(s')
    requires action.BeginScan? ==> NonePending(s, s.Drained())
    ensures IsRunTo(r, s')
  {
    RunSnoc(Init(), actions, action);
    assert (actions + [action])[..|actions|] == actions;
    actions + [action]
  }

  // ---------------------------------------------------------------- records

  /** A record in a quiet, idle state bumps the active map. */
  lemma RecordWhileIdle<K>(s: State<K>, key: K)
    requires s.pending == multiset{} && s.phase.Idle?
    ensures var m, w := Bumped(s.MapOf(s.active), key), Writer(key, s.active);
            RecordStep(s.(pending := multiset{w}), w)
            == if m.None? then s else s.WithMap(s.active, m.value).(recorded := s.recorded + multiset{key})
  {
    hide Bumped, Held;
    var w := Writer(key, s.active);
    assert multiset{w} - multiset{w} == s.pending;
  }

  /** A writer chooses and records with nobody in between. */
  ghost function ChooseAndRecord<K>(actions: seq<Action<K>>, s: State<K>, key: K): (r: seq<Action<K>>)
    requires IsRunTo(actions, s) && s.pending == multiset{} && s.phase.Idle?
    ensures var m := Bumped(s.MapOf(s.active), key);
            IsRunTo(r, if m.None? then s
                       else s.WithMap(s.active, m.value).(recorded := s.recorded + multiset{key}))
  {
    hide IsRunTo, RecordStep, Bumped;
    var w := Writer(key, s.active);
    var s1 := s.(pending := multiset{w});
    assert multiset{} + multiset{w} == multiset{w};
    RecordWhileIdle(s, key);
    Extend(Extend(actions, s, Choose(key), s1), s1, Record(w), RecordStep(s1, w))
  }

  // --------------------------------------------------------------- listings

  /** `es` lists the map: each of its keys once, with its count. */
  ghost predicate Lists<K>(es: Entries<K>, m: map<K, nat>)
  {
    && Distinct(es)
    && KeysOf(es) == m.Keys
    && forall i :: 0 <= i < |es| ==> es[i].0 in m && es[i].1 == m[es[i].0]
  }

  lemma ListsSnoc<K>(es: Entries<K>, m: map<K, nat>, unread: set<K>, key: K)
    requires unread <= m.Keys && key in unread && Lists(es, m - unread)
    ensures key !in KeysOf(es)
    ensures Lists(es + [(key, m[key])], m - (unread - {key}))
  {
    KeysOfSnoc(es, (key, m[key]));
    assert (m - (unread - {key})).Keys == (m - unread).Keys + {key};
    assert forall i :: 0 <= i < |es| ==> es[i] in es;
  }

  /** A listing of a map totals, key by key, to the map. */
  lemma {:induction false} ListingTotals<K>(es: Entries<K>, m: map<K, nat>, k: K)
    requires Lists(es, m)
    ensures Total(es, k) == CountIn(m, k)
  {
    if k in m {
      var e :| e in es && e.0 == k;
      var i :| 0 <= i < |es| && es[i] == e;
      TotalOfOne(es, i);
    } else {
      TotalAbsent(es, k);
    }
  }

  lemma {:induction false} TotalOfOne<K>(es: Entries<K>, i: nat)
    requires Distinct(es) && i < |es|
    ensures Total(es, es[i].0) == es[i].1
  {
    if i == 0 {
      KeysOfDrop(es, 0);
      TotalAbsent(es[1..], es[0].0);
    } else {
      TotalOfOne(es[1..], i - 1);
    }
  }

  lemma ListedOnce<K>(es: Entries<K>, n: nat)
    requires Distinct(es) && n < |es|
    ensures es[n].0 !in KeysOf(es[..n]) && es[..n + 1] == es[..n] + [es[n]]
    ensures KeysOf(es[..n + 1]) == KeysOf(es[..n]) + {es[n].0}
  {
    KeysOfSnoc(es[..n], es[n]);
    assert es[..n + 1] == es[..n] + [es[n]];
  }

  // ----------------------------------------------------------------- drains

  /** Once the first `n` listed entries are read. */
  ghost function Scanned<K>(s: State<K>, es: Entries<K>, n: nat): State<K>
    requires n <= |es|
  {
    s.(phase := Scanning(s.MapOf(s.Drained()).Keys, es[..n]))
  }

  lemma ScannedNext<K>(s: State<K>, es: Entries<K>, n: nat)
    requires s.phase.Flipped? && Lists(es, s.MapOf(s.Drained()))
    ensures Step(s, BeginScan) == Some(Scanned(s, es, 0))
    ensures n < |es| ==> Step(Scanned(s, es, n), ReadKey(es[n].0)) == Some(Scanned(s, es, n + 1))
    ensures Step(Scanned(s, es, |es|), EndScan) == Some(s.(phase := Emitting(es, 0)))
  {
    if n < |es| { ListedOnce(es, n); }
    assert es[..|es|] == es;
    hide KeysOf;
  }

  ghost function ScanRun<K>(actions: seq<Action<K>>, s: State<K>, es: Entries<K>, n: nat): (r: seq<Action<K>>)
    requires IsRunTo(actions, s) && s.phase.Flipped? && s.pending == multiset{}
    requires Lists(es, s.MapOf(s.Drained())) && n <= |es|
    ensures IsRunTo(r, Scanned(s, es, n))
    decreases n
  {
    hide IsRunTo, Step, Lists;
    if n == 0 then
      ScannedNext(s, es, 0);
      Extend(actions, s, BeginScan, Scanned(s, es, 0))
    else
      ScannedNext(s, es, n - 1);
      Extend(ScanRun(actions, s, es, n - 1), Scanned(s, es, n - 1), ReadKey(es[n - 1].0), Scanned(s, es, n))
  }

  /** Once the first `n` are emitted. */
  ghost function Emitted<K>(s: State<K>, es: Entries<K>, n: nat): State<K>
    requires n <= |es|
  {
    s.(phase := Emitting(es, n), log := s.log + es[..n])
  }

  lemma EmittedNext<K>(s: State<K>, es: Entries<K>, n: nat)
    requires s.phase == Emitting(es, 0)
    ensures Emitted(s, es, 0) == s
    ensures n < |es| ==> Step(Emitted(s, es, n), EmitNext) == Some(Emitted(s, es, n + 1))
    ensures Step(Emitted(s, es, |es|), EndEmit) == Some(s.(phase := Removing(es, 0), log := s.log + es))
  {
    assert es[..|es|] == es && s.log + es[..0] == s.log;
    if n < |es| { assert s.log + es[..n + 1] == (s.log + es[..n]) + [es[n]]; }
  }

  ghost function EmitRun<K>(actions: seq<Action<K>>, s: State<K>, es: Entries<K>, n: nat): (r: seq<Action<K>>)
    requires IsRunTo(actions, s) && s.phase == Emitting(es, 0) && n <= |es|
    ensures IsRunTo(r, Emitted(s, es, n))
    decreases n
  {
    hide IsRunTo, Step;
    if n == 0 then
      EmittedNext(s, es, 0);
      actions
    else
      EmittedNext(s, es, n - 1);
      Extend(EmitRun(actions, s, es, n - 1), Emitted(s, es, n - 1), EmitNext, Emitted(s, es, n))
  }

  /** The drained map, and the phase, once the first `n` listed keys are removed. */
  ghost function Removed<K>(s: State<K>, es: Entries<K>, n: nat): State<K>
    requires n <= |es|
  {
    s.WithMap(s.Drained(), s.MapOf(s.Drained()) - KeysOf(es[..n])).(phase := Removing(es, n))
  }

  lemma RemovedNext<K>(s: State<K>, es: Entries<K>, n: nat)
    requires n < |es| && Lists(es, s.MapOf(s.Drained()))
    ensures Step(Removed(s, es, n), RemoveNext) == Some(Removed(s, es, n + 1))
  {
    ListedOnce(es, n);
    hide KeysOf;
    var m := s.MapOf(s.Drained());
    assert m - KeysOf(es[..n + 1]) == m - KeysOf(es[..n]) - {es[n].0};
  }

  lemma RemovedLast<K>(s: State<K>, es: Entries<K>)
    requires Lists(es, s.MapOf(s.Drained()))
    ensures Step(Removed(s, es, |es|), Finish) == Some(s.WithMap(s.Drained(), map[]).(phase := Idle))
  {
    assert es[..|es|] == es && s.MapOf(s.Drained()) - KeysOf(es) == map[];
    hide KeysOf;
  }

  ghost function RemoveRun<K>(actions: seq<Action<K>>, s: State<K>, es: Entries<K>, n: nat): (r: seq<Action<K>>)
    requires IsRunTo(actions, s) && s.phase == Removing(es, 0) && n <= |es|
    requires Lists(es, s.MapOf(s.Drained()))
    ensures IsRunTo(r, Removed(s, es, n))
    decreases n
  {
    hide IsRunTo, Step, Lists;
    if n == 0 then
      assert KeysOf(es[..0]) == {} && s.MapOf(s.Drained()) - {} == s.MapOf(s.Drained());
      actions
    else
      RemovedNext(s, es, n - 1);
      Extend(RemoveRun(actions, s, es, n - 1), Removed(s, es, n - 1), RemoveNext, Removed(s, es, n))
  }

  /** A drain with nobody in between, reading in the order of `es`: the map's listing is emitted, the map ends empty. */
  ghost function DrainRun<K>(actions: seq<Action<K>>, s: State<K>, es: Entries<K>): (r: seq<Action<K>>)
    requires IsRunTo(actions, s) && s.phase.Flipped? && s.pending == multiset{}
    requires Lists(es, s.MapOf(s.Drained()))
    ensures IsRunTo(r, s.WithMap(s.Drained(), map[]).(phase := Idle, log := s.log + es))
  {
    hide IsRunTo, Step, Lists;
    ScannedNext(s, es, |es|);
    var s1 := s.(phase := Emitting(es, 0));
    EmittedNext(s1, es, |es|);
    var s2 := s1.(phase := Removing(es, 0), log := s.log + es);
    RemovedLast(s2, es);
    var scanned := Extend(ScanRun(actions, s, es, |es|), Scanned(s, es, |es|), EndScan, s1);
    var emitted := Extend(EmitRun(scanned, s1, es, |es|), Emitted(s1, es, |es|), EndEmit, s2);
    Extend(RemoveRun(emitted, s2, es, |es|), Removed(s2, es, |es|), Finish, s2.WithMap(s2.Drained(), map[]).(phase := Idle))
  }
}
