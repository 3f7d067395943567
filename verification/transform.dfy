/**
 * `BitnamiWorkarounds.transform`: a left fold over a snapshot of the
 * service names that skips user overrides, classifies each remaining
 * service and dispatches it to one repair routine.
 *
 * The fold is parameterised by a `Mode`.  `AsWritten` is the source's
 * behaviour, including the `KeyError` raised when a name of the snapshot
 * was deleted earlier in the run and the removal of init companions that
 * the user overrode.  `Guarded` is the evidently intended behaviour: such
 * names are skipped and overridden companions are kept.
 */
module Workarounds {
  import opened Wrappers
  import opened Strings
  import opened Services
  import opened Repairs

  datatype Mode = AsWritten | Guarded

  /** One call of a repair routine: the service name and the family it was dispatched to. */
  datatype Dispatch = Dispatch(name: string, family: Family)

  /** The service set during a run, with the repair calls made so far, in call order. */
  datatype State = State(services: map<string, Service>, fixed: seq<Dispatch>)

  /**
   * `compose_services[name]` raised `KeyError`.  The loop mutates the
   * service set in place, so `services` is the set as the exception leaves
   * it: earlier services already rewritten, removed companions gone.
   * `fixed` holds the repair calls made before the exception.
   */
  datatype Error = MissingService(name: string, services: map<string, Service>, fixed: seq<Dispatch>)

  /** The names init-companion removal must keep. */
  function Spared(mode: Mode, ctx: Context): set<string> {
    if mode == AsWritten then {} else ctx.overrides
  }

  /**
   * The service set after dispatching `name` to the repair routine of its
   * family: `name` gets its repaired record, no other record changes, and
   * the only entries removed are the unspared init companions of a
   * Keycloak service — all of them.
   */
  function Apply(mode: Mode, ctx: Context, name: string, family: Family, services: map<string, Service>)
    : (r: map<string, Service>)
    requires name in services && family == Classify(services[name])
    ensures r.Keys <= services.Keys
    ensures forall k :: k in r && k != name ==> r[k] == services[k]
    ensures name in r ==> r[name] == Repair(name, services[name], ctx)
    ensures forall k :: k in services && k !in r ==>
              family == Keycloak && IsInitCompanion(name, k) && k !in Spared(mode, ctx)
    ensures family == Keycloak ==>
              forall k :: k in services && IsInitCompanion(name, k) && k !in Spared(mode, ctx) ==> k !in r
  {
    match family
    case Redis => services[name := FixRedis(name, services[name], ctx)]
    case Postgresql => services[name := FixPostgresql(name, services[name], ctx)]
    case Keycloak =>
      RemoveKeycloakInit(name, services[name := FixKeycloak(name, services[name], ctx)], Spared(mode, ctx))
    case Unmatched => services
  }

  /** One iteration of the loop over the snapshot. */
  function Step(mode: Mode, ctx: Context, name: string, st: State): Result<State, Error> {
    if name in ctx.overrides then
      Success(st)
    else if name !in st.services then
      if mode == AsWritten then Failure(MissingService(name, st.services, st.fixed)) else Success(st)
    else
      var family := Classify(st.services[name]);
      if family == Unmatched then
        Success(st)
      else
        Success(State(Apply(mode, ctx, name, family, st.services), st.fixed + [Dispatch(name, family)]))
  }

  /** The loop over the names still to visit; the first error ends the run. */
  function Run(mode: Mode, ctx: Context, todo: seq<string>, st: State): Result<State, Error>
    decreases |todo|
  {
    if todo == [] then
      Success(st)
    else
      match Step(mode, ctx, todo[0], st)
      case Failure(e) => Failure(e)
      case Success(next) => Run(mode, ctx, todo[1..], next)
  }

  /** A run over one name is one step. */
  lemma RunOne(mode: Mode, ctx: Context, n: string, st: State)
    ensures Run(mode, ctx, [n], st) == Step(mode, ctx, n, st)
  {
    assert [n][1..] == [];
  }

  /** A run over two names is two steps; the first failure ends it. */
  lemma RunTwo(mode: Mode, ctx: Context, a: string, b: string, st: State)
    ensures Run(mode, ctx, [a, b], st)
              == match Step(mode, ctx, a, st)
                 case Failure(e) => Failure(e)
                 case Success(next) => Step(mode, ctx, b, next)
  {
    assert [a, b][1..] == [b];
    if Step(mode, ctx, a, st).Success? {
      RunOne(mode, ctx, b, Step(mode, ctx, a, st).value);
    }
  }

  /** `list(services)`: every key exactly once, in some order. */
  ghost predicate IsSnapshot(snapshot: seq<string>, services: map<string, Service>) {
    && (forall i, j :: 0 <= i < j < |snapshot| ==> snapshot[i] != snapshot[j])
    && (forall k :: k in services <==> k in snapshot)
  }

  /** The whole transform over `services`, visiting names in snapshot order. */
  function Transform(mode: Mode, ctx: Context, services: map<string, Service>, snapshot: seq<string>)
    : Result<State, Error>
    requires IsSnapshot(snapshot, services)
  {
    Run(mode, ctx, snapshot, State(services, []))
  }

  // ---------------------------------------------------------------------------
  // The run invariant
  // ---------------------------------------------------------------------------

  /** The Keycloak service `n` of the original set, not overridden, has `k` as a removable init companion. */
  ghost predicate RemovedBy(mode: Mode, ctx: Context, orig: map<string, Service>, n: string, k: string) {
    && n in orig && n !in ctx.overrides && Classify(orig[n]) == Keycloak
    && IsInitCompanion(n, k) && k !in Spared(mode, ctx)
  }

  /** The record `k` holds once its turn has (`visited`) or has not come. */
  function Expected(ctx: Context, orig: map<string, Service>, k: string, visited: bool): Service
    requires k in orig
  {
    if visited && k !in ctx.overrides then Repair(k, orig[k], ctx) else orig[k]
  }

  /** A recorded repair call is a visited, non-overridden, matched service sent to its own family. */
  ghost predicate Dispatched(ctx: Context, orig: map<string, Service>, visited: seq<string>, d: Dispatch) {
    && d.name in visited && d.name in orig && d.name !in ctx.overrides
    && d.family == Classify(orig[d.name]) && d.family != Unmatched
  }

  /** No run adds a service. */
  ghost predicate KeysShrink(orig: map<string, Service>, st: State) {
    st.services.Keys <= orig.Keys
  }

  /** Every surviving record is its original, repaired once its turn has come. */
  ghost predicate RecordsExpected(ctx: Context, orig: map<string, Service>, visited: seq<string>, st: State)
    requires KeysShrink(orig, st)
  {
    forall k :: k in st.services ==> st.services[k] == Expected(ctx, orig, k, k in visited)
  }

  /** Every deleted service is an init companion of some dispatched Keycloak service. */
  ghost predicate RemovalsJustified(mode: Mode, ctx: Context, orig: map<string, Service>, st: State) {
    forall k :: k in orig && k !in st.services ==>
      exists n :: RemovedBy(mode, ctx, orig, n, k) && Dispatch(n, Keycloak) in st.fixed
  }

  /** A visited Keycloak service that is still present has lost all its removable companions. */
  ghost predicate CompanionsRemoved(mode: Mode, ctx: Context, orig: map<string, Service>, visited: seq<string>,
                                    st: State) {
    forall n, k :: n in visited && n in st.services && k in orig && RemovedBy(mode, ctx, orig, n, k)
      ==> k !in st.services
  }

  /** The recorded calls are sound and name each service at most once. */
  ghost predicate TraceSound(ctx: Context, orig: map<string, Service>, visited: seq<string>, st: State) {
    && (forall i :: 0 <= i < |st.fixed| ==> Dispatched(ctx, orig, visited, st.fixed[i]))
    && (forall i, j :: 0 <= i < j < |st.fixed| ==> st.fixed[i].name != st.fixed[j].name)
  }

  /** Every visited, present, non-overridden matched service has its call recorded. */
  ghost predicate TraceComplete(ctx: Context, orig: map<string, Service>, visited: seq<string>, st: State) {
    forall k :: k in visited && k in orig && k in st.services && k !in ctx.overrides && Classify(orig[k]) != Unmatched
      ==> exists i :: 0 <= i < |st.fixed| && st.fixed[i] == Dispatch(k, Classify(orig[k]))
  }

  ghost predicate Inv(mode: Mode, ctx: Context, orig: map<string, Service>, visited: seq<string>, st: State) {
    && KeysShrink(orig, st)
    && RecordsExpected(ctx, orig, visited, st)
    && RemovalsJustified(mode, ctx, orig, st)
    && CompanionsRemoved(mode, ctx, orig, visited, st)
    && TraceSound(ctx, orig, visited, st)
    && TraceComplete(ctx, orig, visited, st)
  }

  lemma InitialInv(mode: Mode, ctx: Context, orig: map<string, Service>)
    ensures Inv(mode, ctx, orig, [], State(orig, []))
  {
  }

  /** Visiting a name without touching the state keeps the invariant, when that name needs no repair now. */
  lemma SkipPreserves(mode: Mode, ctx: Context, orig: map<string, Service>, visited: seq<string>,
                      m: string, st: State)
    requires Inv(mode, ctx, orig, visited, st)
    requires m in orig && m !in visited
    requires m in ctx.overrides || m !in st.services || Classify(orig[m]) == Unmatched
    ensures Inv(mode, ctx, orig, visited + [m], st)
  {
    SkipKeepsRecords(mode, ctx, orig, visited, m, st);
    SkipKeepsCompanions(mode, ctx, orig, visited, m, st);
    SkipKeepsTrace(mode, ctx, orig, visited, m, st);
  }

  lemma SkipKeepsRecords(mode: Mode, ctx: Context, orig: map<string, Service>, visited: seq<string>,
                         m: string, st: State)
    requires Inv(mode, ctx, orig, visited, st)
    requires m in orig && m !in visited
    requires m in ctx.overrides || m !in st.services || Classify(orig[m]) == Unmatched
    ensures RecordsExpected(ctx, orig, visited + [m], st)
  {
  }

  lemma SkipKeepsCompanions(mode: Mode, ctx: Context, orig: map<string, Service>, visited: seq<string>,
                            m: string, st: State)
    requires Inv(mode, ctx, orig, visited, st)
    requires m in orig && m !in visited
    requires m in ctx.overrides || m !in st.services || Classify(orig[m]) == Unmatched
    ensures CompanionsRemoved(mode, ctx, orig, visited + [m], st)
  {
  }

  lemma SkipKeepsTrace(mode: Mode, ctx: Context, orig: map<string, Service>, visited: seq<string>,
                       m: string, st: State)
    requires Inv(mode, ctx, orig, visited, st)
    requires m in orig && m !in visited
    requires m in ctx.overrides || m !in st.services || Classify(orig[m]) == Unmatched
    ensures TraceSound(ctx, orig, visited + [m], st) && TraceComplete(ctx, orig, visited + [m], st)
  {
  }

  /** The state after dispatching `m` to the repair routine of its family. */
  function AfterDispatch(mode: Mode, ctx: Context, m: string, st: State): State
    requires m in st.services
  {
    var family := Classify(st.services[m]);
    State(Apply(mode, ctx, m, family, st.services), st.fixed + [Dispatch(m, family)])
  }

  /** Dispatching a present, matched, non-overridden service keeps the invariant. */
  lemma DispatchPreserves(mode: Mode, ctx: Context, orig: map<string, Service>, visited: seq<string>,
                          m: string, st: State)
    requires Inv(mode, ctx, orig, visited, st)
    requires m in orig && m !in visited && m !in ctx.overrides && m in st.services
    requires Classify(orig[m]) != Unmatched
    ensures Inv(mode, ctx, orig, visited + [m], AfterDispatch(mode, ctx, m, st))
  {
    DispatchKeepsRecords(mode, ctx, orig, visited, m, st);
    DispatchKeepsRemovals(mode, ctx, orig, visited, m, st);
    DispatchKeepsTrace(mode, ctx, orig, visited, m, st);
  }

  lemma DispatchKeepsRecords(mode: Mode, ctx: Context, orig: map<string, Service>, visited: seq<string>,
                             m: string, st: State)
    requires Inv(mode, ctx, orig, visited, st)
    requires m in orig && m !in visited && m !in ctx.overrides && m in st.services
    requires Classify(orig[m]) != Unmatched
    ensures KeysShrink(orig, AfterDispatch(mode, ctx, m, st))
    ensures RecordsExpected(ctx, orig, visited + [m], AfterDispatch(mode, ctx, m, st))
  {
    assert st.services[m] == orig[m];
    var st' := AfterDispatch(mode, ctx, m, st);
    assert KeysShrink(orig, st');
    forall k | k in st'.services
      ensures st'.services[k] == Expected(ctx, orig, k, k in visited + [m])
    {
      if k != m {
        assert (k in visited + [m]) == (k in visited);
      }
    }
  }

  lemma DispatchKeepsRemovals(mode: Mode, ctx: Context, orig: map<string, Service>, visited: seq<string>,
                              m: string, st: State)
    requires Inv(mode, ctx, orig, visited, st)
    requires m in orig && m !in visited && m !in ctx.overrides && m in st.services
    requires Classify(orig[m]) != Unmatched
    ensures RemovalsJustified(mode, ctx, orig, AfterDispatch(mode, ctx, m, st))
    ensures CompanionsRemoved(mode, ctx, orig, visited + [m], AfterDispatch(mode, ctx, m, st))
  {
    assert st.services[m] == orig[m];
    var st' := AfterDispatch(mode, ctx, m, st);
    assert st'.fixed == st.fixed + [Dispatch(m, Classify(orig[m]))];
    forall k | k in orig && k !in st'.services
      ensures exists n :: RemovedBy(mode, ctx, orig, n, k) && Dispatch(n, Keycloak) in st'.fixed
    {
      if k in st.services {
        assert RemovedBy(mode, ctx, orig, m, k);
        assert st'.fixed[|st.fixed|] == Dispatch(m, Keycloak);
      } else {
        var n :| RemovedBy(mode, ctx, orig, n, k) && Dispatch(n, Keycloak) in st.fixed;
        assert Dispatch(n, Keycloak) in st'.fixed;
      }
    }
  }

  lemma DispatchKeepsTrace(mode: Mode, ctx: Context, orig: map<string, Service>, visited: seq<string>,
                           m: string, st: State)
    requires Inv(mode, ctx, orig, visited, st)
    requires m in orig && m !in visited && m !in ctx.overrides && m in st.services
    requires Classify(orig[m]) != Unmatched
    ensures TraceSound(ctx, orig, visited + [m], AfterDispatch(mode, ctx, m, st))
    ensures TraceComplete(ctx, orig, visited + [m], AfterDispatch(mode, ctx, m, st))
  {
    DispatchKeepsSoundTrace(mode, ctx, orig, visited, m, st);
    DispatchKeepsCompleteTrace(mode, ctx, orig, visited, m, st);
  }

  lemma DispatchKeepsSoundTrace(mode: Mode, ctx: Context, orig: map<string, Service>, visited: seq<string>,
                                m: string, st: State)
    requires Inv(mode, ctx, orig, visited, st)
    requires m in orig && m !in visited && m !in ctx.overrides && m in st.services
    requires Classify(orig[m]) != Unmatched
    ensures TraceSound(ctx, orig, visited + [m], AfterDispatch(mode, ctx, m, st))
  {
    assert st.services[m] == orig[m];
    var fixed := st.fixed + [Dispatch(m, Classify(orig[m]))];
    assert AfterDispatch(mode, ctx, m, st).fixed == fixed;
    forall i | 0 <= i < |fixed|
      ensures Dispatched(ctx, orig, visited + [m], fixed[i])
    {
      if i < |st.fixed| {
        assert fixed[i] == st.fixed[i];
        assert Dispatched(ctx, orig, visited, st.fixed[i]);
      }
    }
    forall i, j | 0 <= i < j < |fixed|
      ensures fixed[i].name != fixed[j].name
    {
      assert fixed[i] == st.fixed[i];
      if j < |st.fixed| {
        assert fixed[j] == st.fixed[j];
      } else {
        assert Dispatched(ctx, orig, visited, st.fixed[i]);
      }
    }
  }

  lemma DispatchKeepsCompleteTrace(mode: Mode, ctx: Context, orig: map<string, Service>, visited: seq<string>,
                                   m: string, st: State)
    requires Inv(mode, ctx, orig, visited, st)
    requires m in orig && m !in visited && m !in ctx.overrides && m in st.services
    requires Classify(orig[m]) != Unmatched
    ensures TraceComplete(ctx, orig, visited + [m], AfterDispatch(mode, ctx, m, st))
  {
    assert st.services[m] == orig[m];
    var st' := AfterDispatch(mode, ctx, m, st);
    assert st'.fixed == st.fixed + [Dispatch(m, Classify(orig[m]))];
    forall k | k in visited + [m] && k in orig && k in st'.services && k !in ctx.overrides
                 && Classify(orig[k]) != Unmatched
      ensures exists i :: 0 <= i < |st'.fixed| && st'.fixed[i] == Dispatch(k, Classify(orig[k]))
    {
      if k == m {
        assert st'.fixed[|st.fixed|] == Dispatch(k, Classify(orig[k]));
      } else {
        assert k in visited && k in st.services;
        var i :| 0 <= i < |st.fixed| && st.fixed[i] == Dispatch(k, Classify(orig[k]));
        assert st'.fixed[i] == st.fixed[i];
      }
    }
  }

  /** One successful step visiting a not yet visited name keeps the invariant. */
  lemma StepPreserves(mode: Mode, ctx: Context, orig: map<string, Service>, visited: seq<string>,
                      m: string, st: State)
    requires Inv(mode, ctx, orig, visited, st)
    requires m in orig && m !in visited
    requires Step(mode, ctx, m, st).Success?
    ensures Inv(mode, ctx, orig, visited + [m], Step(mode, ctx, m, st).value)
  {
    if m in ctx.overrides || m !in st.services {
      SkipPreserves(mode, ctx, orig, visited, m, st);
    } else {
      assert st.services[m] == orig[m];
      if Classify(orig[m]) == Unmatched {
        SkipPreserves(mode, ctx, orig, visited, m, st);
      } else {
        DispatchPreserves(mode, ctx, orig, visited, m, st);
        assert Step(mode, ctx, m, st).value == AfterDispatch(mode, ctx, m, st);
      }
    }
  }

  /** The run from position `i` is the step at `i` followed by the run from `i + 1`. */
  lemma RunAt(mode: Mode, ctx: Context, todo: seq<string>, i: nat, st: State)
    requires i < |todo|
    ensures Run(mode, ctx, todo[i..], st)
              == match Step(mode, ctx, todo[i], st)
                 case Failure(e) => Failure(e)
                 case Success(next) => Run(mode, ctx, todo[i + 1..], next)
  {
    assert todo[i..][0] == todo[i];
    assert todo[i..][1..] == todo[i + 1..];
  }

  /** The name at position `i` of a snapshot is a service not visited before. */
  lemma SnapshotAt(snapshot: seq<string>, orig: map<string, Service>, i: nat)
    requires IsSnapshot(snapshot, orig) && i < |snapshot|
    ensures snapshot[i] in orig && snapshot[i] !in snapshot[..i]
    ensures snapshot[..i] + [snapshot[i]] == snapshot[..i + 1]
  {
    assert snapshot[..i + 1] == snapshot[..i] + [snapshot[i]];
  }

  /** The invariant holds after the rest of a successful run. */
  lemma {:induction false} RunPreserves(mode: Mode, ctx: Context, orig: map<string, Service>,
                                        snapshot: seq<string>, i: nat, st: State)
    requires IsSnapshot(snapshot, orig)
    requires i <= |snapshot|
    requires Inv(mode, ctx, orig, snapshot[..i], st)
    requires Run(mode, ctx, snapshot[i..], st).Success?
    ensures Inv(mode, ctx, orig, snapshot, Run(mode, ctx, snapshot[i..], st).value)
    decreases |snapshot| - i
  {
    if i == |snapshot| {
      assert snapshot[..i] == snapshot;
      assert snapshot[i..] == [];
    } else {
      var m := snapshot[i];
      RunAt(mode, ctx, snapshot, i, st);
      SnapshotAt(snapshot, orig, i);
      StepPreserves(mode, ctx, orig, snapshot[..i], m, st);
      RunPreserves(mode, ctx, orig, snapshot, i + 1, Step(mode, ctx, m, st).value);
    }
  }

  /** A failed run failed on a name that a Keycloak init removal had deleted, and only as written. */
  lemma {:induction false} RunFailure(mode: Mode, ctx: Context, orig: map<string, Service>,
                                      snapshot: seq<string>, i: nat, st: State)
    requires IsSnapshot(snapshot, orig)
    requires i <= |snapshot|
    requires Inv(mode, ctx, orig, snapshot[..i], st)
    requires Run(mode, ctx, snapshot[i..], st).Failure?
    ensures var n := Run(mode, ctx, snapshot[i..], st).error.name;
            mode == AsWritten && n in orig && n !in ctx.overrides
            && exists m :: RemovedBy(mode, ctx, orig, m, n)
    ensures var e := Run(mode, ctx, snapshot[i..], st).error;
            exists j, f :: 0 <= j < f < |snapshot| && snapshot[f] == e.name
              && RemovedBy(mode, ctx, orig, snapshot[j], e.name) && Dispatch(snapshot[j], Keycloak) in e.fixed
    ensures var e := Run(mode, ctx, snapshot[i..], st).error;
            && e.name !in e.services && e.services.Keys <= orig.Keys
            && forall k :: k in e.services ==> e.services[k] == orig[k] || e.services[k] == Repair(k, orig[k], ctx)
    decreases |snapshot| - i
  {
    if i < |snapshot| {
      var m := snapshot[i];
      RunAt(mode, ctx, snapshot, i, st);
      SnapshotAt(snapshot, orig, i);
      if Step(mode, ctx, m, st).Success? {
        StepPreserves(mode, ctx, orig, snapshot[..i], m, st);
        RunFailure(mode, ctx, orig, snapshot, i + 1, Step(mode, ctx, m, st).value);
      } else {
        StepFailure(mode, ctx, orig, snapshot[..i], m, st);
        var e := Step(mode, ctx, m, st).error;
        var k :| RemovedBy(mode, ctx, orig, k, m) && k in snapshot[..i] && Dispatch(k, Keycloak) in e.fixed;
        EarlierIndex(snapshot, i, k);
      }
    }
  }

  /** The invariant keeps overridden names out of the trace and their surviving records as they were. */
  lemma InvRespects(mode: Mode, ctx: Context, orig: map<string, Service>, visited: seq<string>, st: State)
    requires Inv(mode, ctx, orig, visited, st)
    ensures forall i :: 0 <= i < |st.fixed| ==> st.fixed[i].name !in ctx.overrides
    ensures forall k :: k in ctx.overrides && k in st.services ==> st.services[k] == orig[k]
  {
    forall i | 0 <= i < |st.fixed|
      ensures st.fixed[i].name !in ctx.overrides
    {
      assert Dispatched(ctx, orig, visited, st.fixed[i]);
    }
    forall k | k in ctx.overrides && k in st.services
      ensures st.services[k] == orig[k]
    {
      assert st.services[k] == Expected(ctx, orig, k, k in visited);
    }
  }

  /** No repair call went to an overridden name, and every overridden service present holds its original record. */
  ghost predicate OverridesUntouched(ctx: Context, orig: map<string, Service>, services: map<string, Service>,
                                     fixed: seq<Dispatch>) {
    && (forall j :: 0 <= j < |fixed| ==> fixed[j].name !in ctx.overrides)
    && (forall k :: k in ctx.overrides && k in services && k in orig ==> services[k] == orig[k])
  }

  /**
   * A failed run never reached an overridden name: none is in the trace,
   * and every overridden service the exception leaves behind holds its
   * original record.
   */
  lemma {:induction false} RunFailureRespectsOverrides(mode: Mode, ctx: Context, orig: map<string, Service>,
                                                       snapshot: seq<string>, i: nat, st: State)
    requires IsSnapshot(snapshot, orig)
    requires i <= |snapshot|
    requires Inv(mode, ctx, orig, snapshot[..i], st)
    requires Run(mode, ctx, snapshot[i..], st).Failure?
    ensures var e := Run(mode, ctx, snapshot[i..], st).error;
            OverridesUntouched(ctx, orig, e.services, e.fixed)
    decreases |snapshot| - i
  {
    if i < |snapshot| {
      var m := snapshot[i];
      RunAt(mode, ctx, snapshot, i, st);
      SnapshotAt(snapshot, orig, i);
      if Step(mode, ctx, m, st).Success? {
        StepPreserves(mode, ctx, orig, snapshot[..i], m, st);
        RunFailureRespectsOverrides(mode, ctx, orig, snapshot, i + 1, Step(mode, ctx, m, st).value);
      } else {
        StepFailureRespectsOverrides(mode, ctx, orig, snapshot[..i], m, st);
      }
    }
  }

  /** The state a failing step leaves behind has not reached any overridden name. */
  lemma StepFailureRespectsOverrides(mode: Mode, ctx: Context, orig: map<string, Service>, visited: seq<string>,
                                     m: string, st: State)
    requires Inv(mode, ctx, orig, visited, st)
    requires m in orig
    requires Step(mode, ctx, m, st).Failure?
    ensures var e := Step(mode, ctx, m, st).error;
            OverridesUntouched(ctx, orig, e.services, e.fixed)
  {
    StepFailure(mode, ctx, orig, visited, m, st);
    InvRespects(mode, ctx, orig, visited, st);
  }

  /** A name in the first `i` entries of a sequence sits at some position below `i`. */
  lemma EarlierIndex(s: seq<string>, i: nat, k: string)
    requires i <= |s| && k in s[..i]
    ensures exists j :: 0 <= j < i && s[j] == k
  {
    var j :| 0 <= j < i && s[..i][j] == k;
    assert s[j] == k;
  }

  /** A step fails only as written, on a name an init removal has deleted. */
  lemma StepFailure(mode: Mode, ctx: Context, orig: map<string, Service>, visited: seq<string>,
                    m: string, st: State)
    requires Inv(mode, ctx, orig, visited, st)
    requires m in orig
    requires Step(mode, ctx, m, st).Failure?
    ensures var e := Step(mode, ctx, m, st).error;
            && e.name == m && mode == AsWritten && m !in ctx.overrides
            && exists k :: RemovedBy(mode, ctx, orig, k, m) && k in visited && Dispatch(k, Keycloak) in e.fixed
    ensures Step(mode, ctx, m, st).error.services == st.services
    ensures Step(mode, ctx, m, st).error.fixed == st.fixed
  {
    assert m !in st.services && mode == AsWritten && m !in ctx.overrides;
    assert Step(mode, ctx, m, st) == Failure(MissingService(m, st.services, st.fixed));
    assert RemovalsJustified(mode, ctx, orig, st);
    var k :| RemovedBy(mode, ctx, orig, k, m) && Dispatch(k, Keycloak) in st.fixed;
    CallerVisited(ctx, orig, visited, st, Dispatch(k, Keycloak));
  }

  /** A recorded repair call names a visited service. */
  lemma CallerVisited(ctx: Context, orig: map<string, Service>, visited: seq<string>, st: State, d: Dispatch)
    requires TraceSound(ctx, orig, visited, st)
    requires d in st.fixed
    ensures d.name in visited
  {
    var i :| 0 <= i < |st.fixed| && st.fixed[i] == d;
    assert Dispatched(ctx, orig, visited, st.fixed[i]);
  }

  // ---------------------------------------------------------------------------
  // Properties of a whole run
  // ---------------------------------------------------------------------------

  /**
   * What a successful run leaves behind.  No service is added.  A surviving
   * overridden service keeps its record; every other survivor holds its
   * original record rewritten by the repair routine of its family (an
   * unmatched one is unchanged).  Each removed service is an unspared init
   * companion of a non-overridden Keycloak service, and a Keycloak service
   * that survives has lost all of its unspared companions.  The repair
   * calls go to non-overridden services of a matched family, at most once
   * per name and to the family the classifier picks, and every surviving
   * such service had its call.
   */
  lemma TransformOutcome(mode: Mode, ctx: Context, services: map<string, Service>, snapshot: seq<string>)
    requires IsSnapshot(snapshot, services)
    requires Transform(mode, ctx, services, snapshot).Success?
    ensures var r := Transform(mode, ctx, services, snapshot).value;
            && r.services.Keys <= services.Keys
            && (forall k :: k in r.services ==>
                  r.services[k] == if k in ctx.overrides then services[k] else Repair(k, services[k], ctx))
            && (forall k :: k in services && k !in r.services ==>
                  exists n :: RemovedBy(mode, ctx, services, n, k) && Dispatch(n, Keycloak) in r.fixed)
            && (forall n, k :: n in r.services && k in services && RemovedBy(mode, ctx, services, n, k)
                  ==> k !in r.services)
            && (forall i :: 0 <= i < |r.fixed| ==>
                  && r.fixed[i].name in services && r.fixed[i].name !in ctx.overrides
                  && r.fixed[i].family == Classify(services[r.fixed[i].name]) && r.fixed[i].family != Unmatched)
            && (forall i, j :: 0 <= i < j < |r.fixed| ==> r.fixed[i].name != r.fixed[j].name)
            && (forall k :: k in r.services && k !in ctx.overrides && Classify(services[k]) != Unmatched
                  ==> exists i :: 0 <= i < |r.fixed| && r.fixed[i] == Dispatch(k, Classify(services[k])))
  {
    InitialInv(mode, ctx, services);
    assert snapshot[..0] == [] && snapshot[0..] == snapshot;
    RunPreserves(mode, ctx, services, snapshot, 0, State(services, []));
  }

  /** No repair routine is ever called on an overridden name. */
  lemma OverridesNeverDispatched(mode: Mode, ctx: Context, services: map<string, Service>, snapshot: seq<string>)
    requires IsSnapshot(snapshot, services)
    requires Transform(mode, ctx, services, snapshot).Success?
    ensures var r := Transform(mode, ctx, services, snapshot).value;
            forall i :: 0 <= i < |r.fixed| ==> r.fixed[i].name !in ctx.overrides
  {
    TransformOutcome(mode, ctx, services, snapshot);
  }

  /** An overridden service that is still present holds exactly its original record. */
  lemma OverriddenRecordsUnchanged(mode: Mode, ctx: Context, services: map<string, Service>, snapshot: seq<string>)
    requires IsSnapshot(snapshot, services)
    requires Transform(mode, ctx, services, snapshot).Success?
    ensures var r := Transform(mode, ctx, services, snapshot).value;
            forall k :: k in ctx.overrides && k in services && k in r.services ==> r.services[k] == services[k]
  {
    TransformOutcome(mode, ctx, services, snapshot);
  }

  /** A service of no matched family is left as it was, unless an init removal deleted it. */
  lemma UnmatchedUnchanged(mode: Mode, ctx: Context, services: map<string, Service>, snapshot: seq<string>)
    requires IsSnapshot(snapshot, services)
    requires Transform(mode, ctx, services, snapshot).Success?
    ensures var r := Transform(mode, ctx, services, snapshot).value;
            forall k :: k in services && k in r.services && Classify(services[k]) == Unmatched ==> r.services[k] == services[k]
  {
    TransformOutcome(mode, ctx, services, snapshot);
  }

  /** With no Keycloak service to dispatch nothing is removed. */
  lemma NoKeycloakNoRemoval(mode: Mode, ctx: Context, services: map<string, Service>, snapshot: seq<string>)
    requires IsSnapshot(snapshot, services)
    requires Transform(mode, ctx, services, snapshot).Success?
    requires forall n :: n in services && n !in ctx.overrides ==> Classify(services[n]) != Keycloak
    ensures Transform(mode, ctx, services, snapshot).value.services.Keys == services.Keys
  {
    TransformOutcome(mode, ctx, services, snapshot);
  }

  /** The guarded run keeps every overridden service, unchanged. */
  lemma GuardedKeepsOverrides(ctx: Context, services: map<string, Service>, snapshot: seq<string>)
    requires IsSnapshot(snapshot, services)
    requires Transform(Guarded, ctx, services, snapshot).Success?
    ensures var r := Transform(Guarded, ctx, services, snapshot).value;
            forall k :: k in ctx.overrides && k in services ==> k in r.services && r.services[k] == services[k]
  {
    TransformOutcome(Guarded, ctx, services, snapshot);
  }

  /** The guarded run never fails. */
  lemma {:induction false} GuardedRunSucceeds(ctx: Context, todo: seq<string>, st: State)
    ensures Run(Guarded, ctx, todo, st).Success?
    decreases |todo|
  {
    if todo != [] {
      GuardedRunSucceeds(ctx, todo[1..], Step(Guarded, ctx, todo[0], st).value);
    }
  }

  lemma GuardedNeverFails(ctx: Context, services: map<string, Service>, snapshot: seq<string>)
    requires IsSnapshot(snapshot, services)
    ensures Transform(Guarded, ctx, services, snapshot).Success?
  {
    GuardedRunSucceeds(ctx, snapshot, State(services, []));
  }

  /** No overridden name carries the init-companion marker. */
  ghost predicate NoOverriddenCompanion(ctx: Context) {
    forall k :: k in ctx.overrides ==> !Contains(k, InitMarker)
  }

  /** Sparing a set that holds none of the companions removes the same entries as sparing nothing. */
  lemma SparedIrrelevant(name: string, services: map<string, Service>, spared: set<string>)
    requires forall k :: k in spared ==> !Contains(k, InitMarker)
    ensures RemoveKeycloakInit(name, services, spared) == RemoveKeycloakInit(name, services, {})
  {
  }

  /** A step the source completes is the same step in the corrected fold. */
  lemma StepRefines(ctx: Context, name: string, st: State)
    requires NoOverriddenCompanion(ctx)
    requires Step(AsWritten, ctx, name, st).Success?
    ensures Step(Guarded, ctx, name, st) == Step(AsWritten, ctx, name, st)
  {
    if name !in ctx.overrides && name in st.services && Classify(st.services[name]) == Keycloak {
      SparedIrrelevant(name, st.services[name := FixKeycloak(name, st.services[name], ctx)], ctx.overrides);
    }
  }

  /** A run the source completes is the same run in the corrected fold. */
  lemma {:induction false} RunRefines(ctx: Context, todo: seq<string>, st: State)
    requires NoOverriddenCompanion(ctx)
    requires Run(AsWritten, ctx, todo, st).Success?
    ensures Run(Guarded, ctx, todo, st) == Run(AsWritten, ctx, todo, st)
    decreases |todo|
  {
    if todo != [] {
      StepRefines(ctx, todo[0], st);
      RunRefines(ctx, todo[1..], Step(AsWritten, ctx, todo[0], st).value);
    }
  }

  /**
   * The corrected fold refines the source: whenever no overridden name is
   * an init companion and the source's run succeeds, the corrected run
   * ends in the very same state.  It differs only where the source raises
   * `KeyError` or deletes an overridden companion.
   */
  lemma GuardedRefinesAsWritten(ctx: Context, services: map<string, Service>, snapshot: seq<string>)
    requires IsSnapshot(snapshot, services) && NoOverriddenCompanion(ctx)
    requires Transform(AsWritten, ctx, services, snapshot).Success?
    ensures Transform(Guarded, ctx, services, snapshot) == Transform(AsWritten, ctx, services, snapshot)
  {
    RunRefines(ctx, snapshot, State(services, []));
  }

  /**
   * The source's run fails only with `KeyError` on a non-overridden name
   * that is an init companion of a non-overridden Keycloak service which
   * comes before it in the snapshot and whose repair call was made.  The
   * service set the exception leaves behind lacks that name, gained no
   * service, and holds each survivor either as it was or repaired by its
   * family's routine.  No overridden name was reached: none is in the
   * trace, and each overridden survivor holds its original record.
   */
  lemma AsWrittenFailure(mode: Mode, ctx: Context, services: map<string, Service>, snapshot: seq<string>)
    requires IsSnapshot(snapshot, services)
    requires Transform(mode, ctx, services, snapshot).Failure?
    ensures var n := Transform(mode, ctx, services, snapshot).error.name;
            && mode == AsWritten && n in services && n !in ctx.overrides
            && exists m :: RemovedBy(mode, ctx, services, m, n)
    ensures var e := Transform(mode, ctx, services, snapshot).error;
            exists j, f :: 0 <= j < f < |snapshot| && snapshot[f] == e.name
              && RemovedBy(mode, ctx, services, snapshot[j], e.name) && Dispatch(snapshot[j], Keycloak) in e.fixed
    ensures var e := Transform(mode, ctx, services, snapshot).error;
            && e.name !in e.services && e.services.Keys <= services.Keys
            && forall k :: k in e.services ==>
                 e.services[k] == services[k] || e.services[k] == Repair(k, services[k], ctx)
    ensures var e := Transform(mode, ctx, services, snapshot).error;
            && (forall i :: 0 <= i < |e.fixed| ==> e.fixed[i].name !in ctx.overrides)
            && (forall k :: k in ctx.overrides && k in e.services ==> e.services[k] == services[k])
  {
    InitialInv(mode, ctx, services);
    assert snapshot[..0] == [] && snapshot[0..] == snapshot;
    RunFailure(mode, ctx, services, snapshot, 0, State(services, []));
    RunFailureRespectsOverrides(mode, ctx, services, snapshot, 0, State(services, []));
  }
}
