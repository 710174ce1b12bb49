/** The embedding-version registry. `Registry` with `Register` and `AtomicSwap` is the one-lock contract;
    the class swaps in two phases, validating before it takes the lock a second time. The state machine
    at the end runs any number of threads through those phases and is compared with the contract. */
module EmbeddingRegistry {
  import opened Relational
  import opened TextOrder

  datatype Model = Model(name: string, dims: int, digest: string)
  datatype Registry = Registry(versions: map<string, Model>, active: Cell<string>)

  datatype Error = InvalidModel | NoActiveVersion | UnknownVersion | Incompatible | UnreadableResult | Superseded
  datatype Result<+T> = Ok(value: T) | Err(error: Error)

  datatype Swap = Swap(previous: Cell<string>, active: string)
  datatype Validation = Validation(previous: string, candidate: string, dims: int)

  /** What one dual read returned: not a sequence at all, or its matches, each with the length of its
      vector if it has one. */
  datatype Reads = NotASequence | Matches(vectors: seq<Cell<nat>>)
  datatype DualRead = MetadataOnly | Both(previous: Reads, candidate: Reads)

  const EMPTY := Registry(map[], Null)

  // ------------------------------------------------------------------ model validity

  predicate IsHex(c: char) { '0' <= c <= '9' || 'a' <= c <= 'f' }

  predicate ValidModel(m: Model) {
    && (exists i | 0 <= i < |m.name| :: !IsSpace(m.name[i]))
    && m.dims >= 1
    && |m.digest| == 71 && "sha256:" <= m.digest && (forall i | 7 <= i < 71 :: IsHex(m.digest[i]))
  }

  // ------------------------------------------------------------------ the one-lock contract

  function Register(hash: Model -> string, r: Registry, m: Model): (Registry, Result<string>) {
    if !ValidModel(m) then (r, Err(InvalidModel))
    else
      var id := hash(m);
      (Registry(r.versions[id := m], if r.active.Null? then Val(id) else r.active), Ok(id))
  }

  function AtomicSwap(r: Registry, candidate: string): (Registry, Result<Swap>) {
    if candidate !in r.versions then (r, Err(UnknownVersion))
    else if r.active.Val? && r.active.v in r.versions
         && r.versions[r.active.v].dims != r.versions[candidate].dims then (r, Err(Incompatible))
    else (r.(active := Val(candidate)), Ok(Swap(r.active, candidate)))
  }

  // ------------------------------------------------------------------ the two phases

  function Validate(r: Registry, candidate: string): Result<Validation> {
    if r.active.Null? || r.active.v !in r.versions then Err(NoActiveVersion)
    else if candidate !in r.versions then Err(UnknownVersion)
    else if r.versions[r.active.v].dims != r.versions[candidate].dims then Err(Incompatible)
    else Ok(Validation(r.active.v, candidate, r.versions[candidate].dims))
  }

  predicate ShapeFits(dims: int, found: Reads) {
    found.Matches? && forall i | 0 <= i < |found.vectors| :: found.vectors[i].Null? || found.vectors[i].v == dims
  }

  predicate ReadsFit(dims: int, dual: DualRead) {
    dual.Both? ==> ShapeFits(dims, dual.previous) && ShapeFits(dims, dual.candidate)
  }

  function Commit(r: Registry, v: Validation): (Registry, Result<Swap>) {
    if r.active != Val(v.previous) then (r, Err(Superseded))
    else (r.(active := Val(v.candidate)), Ok(Swap(Val(v.previous), v.candidate)))
  }

  method CheckShape(dims: int, found: Reads) returns (fits: bool)
    ensures fits <==> ShapeFits(dims, found)
  {
    if found.NotASequence? { return false; }
    for i := 0 to |found.vectors|
      invariant forall k | 0 <= k < i :: found.vectors[k].Null? || found.vectors[k].v == dims
    {
      if found.vectors[i].Val? && found.vectors[i].v != dims { return false; }
    }
    return true;
  }

  /** A list of matches, each without a vector or with one of this length. */
  predicate AllOfLength(found: Reads, dims: int) {
    found != NotASequence
    && forall v | v in found.vectors :: v == Null || v.v == dims
  }

  /** The registry object. Each method body is one critical section, except that `ValidateDualRead`
      inspects the reads after releasing the lock. */
  class EmbeddingVersionRegistry {
    var versions: map<string, Model>
    var active: Cell<string>

    function View(): Registry reads this { Registry(versions, active) }

    ghost predicate Valid() reads this {
      (active.Null? <==> versions == map[]) && (active.Val? ==> active.v in versions)
    }

    constructor ()
      ensures Valid() && View() == EMPTY
    {
      versions, active := map[], Null;
    }

    method RegisterVersion(hash: Model -> string, m: Model) returns (result: Result<string>)
      requires Valid()
      modifies this
      ensures Valid() && (View(), result) == Register(hash, old(View()), m)
    {
      if !ValidModel(m) { return Err(InvalidModel); }
      var id := hash(m);
      versions := versions[id := m];
      assert id in versions;
      if active.Null? { active := Val(id); }
      return Ok(id);
    }

    method ResolveActive() returns (result: Result<string>)
      requires Valid()
      ensures result == if active.Null? then Err(NoActiveVersion) else Ok(active.v)
    {
      if active.Null? { return Err(NoActiveVersion); }
      return Ok(active.v);
    }

    method ValidateDualRead(candidate: string, dual: DualRead) returns (result: Result<Validation>)
      requires Valid()
      ensures result == (var v := Validate(View(), candidate);
                         if v.Ok? && !ReadsFit(v.value.dims, dual) then Err(UnreadableResult) else v)
    {
      var resolved := ResolveActive();
      if resolved.Err? { return Err(resolved.error); }
      var previous := resolved.value;
      if candidate !in versions { return Err(UnknownVersion); }
      if versions[previous].dims != versions[candidate].dims { return Err(Incompatible); }
      if dual.Both? {
        var ok := CheckShape(versions[previous].dims, dual.previous);
        if !ok { return Err(UnreadableResult); }
        ok := CheckShape(versions[candidate].dims, dual.candidate);
        if !ok { return Err(UnreadableResult); }
      }
      return Ok(Validation(previous, candidate, versions[previous].dims));
    }

    method CommitSwap(v: Validation) returns (result: Result<Swap>)
      requires Valid() && v.candidate in versions
      modifies this`active
      ensures Valid() && (View(), result) == Commit(old(View()), v)
    {
      if active != Val(v.previous) { return Err(Superseded); }
      active := Val(v.candidate);
      return Ok(Swap(Val(v.previous), v.candidate));
    }

    /** A swap nobody interrupts is the contract's swap, provided the reads fit. */
    method HotSwap(candidate: string, dual: DualRead) returns (result: Result<Swap>)
      requires Valid()
      modifies this`active
      ensures Valid() && versions == old(versions)
      // it takes place exactly when both versions have one dimension and both reads, if any, have it throughout
      ensures result.Ok?
         <==> && old(active).Val? && candidate in versions
              && versions[old(active).v].dims == versions[candidate].dims
              && (dual.Both? ==> AllOfLength(dual.previous, versions[candidate].dims)
                                 && AllOfLength(dual.candidate, versions[candidate].dims))
      ensures result.Ok? ==> active == Val(candidate) && result.value == Swap(old(active), candidate)
      ensures result.Ok? ==> (View(), result) == AtomicSwap(old(View()), candidate)
      ensures result.Err? ==> View() == old(View()) && result.error != Superseded
      ensures result.Err? ==> AtomicSwap(old(View()), candidate).1.Err?
                              || (result.error == UnreadableResult
                                  && !ReadsFit(old(View()).versions[candidate].dims, dual))
    {
      ShapeFitsIff(dual);
      var v := ValidateDualRead(candidate, dual);
      if v.Err? { return Err(v.error); }
      result := CommitSwap(v.value);
    }
  }

  lemma {:induction false} ShapeFitsIff(dual: DualRead)
    ensures dual.Both? ==> forall dims ::
              (ShapeFits(dims, dual.previous) <==> AllOfLength(dual.previous, dims))
              && (ShapeFits(dims, dual.candidate) <==> AllOfLength(dual.candidate, dims))
  {
    if dual.Both? {
      forall dims
        ensures ShapeFits(dims, dual.previous) <==> AllOfLength(dual.previous, dims)
        ensures ShapeFits(dims, dual.candidate) <==> AllOfLength(dual.candidate, dims)
      {
        LengthsOf(dual.previous, dims);
        LengthsOf(dual.candidate, dims);
      }
    }
  }

  lemma {:induction false} LengthsOf(found: Reads, dims: int)
    ensures ShapeFits(dims, found) <==> AllOfLength(found, dims)
  {
    if AllOfLength(found, dims) {
      forall i | 0 <= i < |found.vectors| ensures found.vectors[i].Null? || found.vectors[i].v == dims {
        assert found.vectors[i] in found.vectors;
      }
    }
  }

  /** A model is accepted with a name that is not blank, a positive dimension and a digest of 64 lower-case
      hexadecimal characters, by their code points. */
  ghost predicate Acceptable(m: Model) {
    && !AllSpaces(m.name) && m.dims > 0
    && exists hex :: m.digest == "sha256:" + hex && |hex| == 64
                     && forall c | c in hex :: 48 <= c as int <= 57 || 97 <= c as int <= 102
  }

  lemma {:induction false} AcceptableIff(m: Model)
    ensures ValidModel(m) <==> Acceptable(m)
  {
    if ValidModel(m) {
      var hex := m.digest[7..];
      assert m.digest == "sha256:" + hex;
      forall c | c in hex ensures IsHex(c) {
        var i :| 0 <= i < |hex| && hex[i] == c;
        assert m.digest[i + 7] == c;
      }
    }
    if Acceptable(m) {
      var hex :| m.digest == "sha256:" + hex && |hex| == 64
                 && forall c | c in hex :: 48 <= c as int <= 57 || 97 <= c as int <= 102;
      forall i | 7 <= i < 71 ensures IsHex(m.digest[i]) { assert hex[i - 7] in hex; }
    }
  }

  /** Registering adds or replaces the record under the model's identifier and makes it active if none is. */
  lemma {:induction false} RegisterMeaning(hash: Model -> string, r: Registry, m: Model)
    ensures var (q, result) := Register(hash, r, m);
      if !Acceptable(m) then q == r && result == Err(InvalidModel)
      else
        && result == Ok(hash(m))
        && (forall id :: id in q.versions <==> id in r.versions || id == hash(m))
        && (forall id | id in q.versions :: q.versions[id] == if id == hash(m) then m else r.versions[id])
        && q.active == if r.active == Null then Val(hash(m)) else r.active
  {
    AcceptableIff(m);
  }

  /** The contract's swap, each outcome by what the registry holds. */
  lemma {:induction false} AtomicSwapMeaning(r: Registry, candidate: string)
    ensures var (q, result) := AtomicSwap(r, candidate);
      && (result == Err(UnknownVersion) <==> candidate !in r.versions)
      && (result == Err(Incompatible)
          <==> candidate in r.versions && r.active != Null && r.active.v in r.versions
               && r.versions[r.active.v].dims != r.versions[candidate].dims)
      && (result.Err? ==> q == r && result.error in {UnknownVersion, Incompatible})
      && (result.Ok? ==> q == Registry(r.versions, Val(candidate)) && result.value == Swap(r.active, candidate))
  {}

  // ------------------------------------------------------------------ many threads

  datatype Pc = Idle | Validated(validation: Validation)

  /** What the contract sees of a run, in the order the locks were taken. A swap is recorded where it
      takes effect or where its validation fails; swaps that lose the race or read badly leave no trace. */
  datatype Event = Registered(model: Model, outcome: Result<string>)
                 | Swapped(swap: Swap)
                 | Refused(candidate: string, error: Error)

  datatype State = State(registry: Registry, threads: map<nat, Pc>, log: seq<Event>)

  predicate RegisterStep(hash: Model -> string, known: set<Model>, s: State, t: State, i: nat, m: Model) {
    && i in s.threads && s.threads[i].Idle? && m in known
    && t == State(Register(hash, s.registry, m).0, s.threads, s.log + [Registered(m, Register(hash, s.registry, m).1)])
  }

  predicate BeginStep(s: State, t: State, i: nat, candidate: string) {
    && i in s.threads && s.threads[i].Idle?
    && var v := Validate(s.registry, candidate);
       t == if v.Ok? then s.(threads := s.threads[i := Validated(v.value)])
                          else s.(log := s.log + [Refused(candidate, v.error)])
  }

  /** The reads raised or did not fit. */
  predicate AbandonStep(s: State, t: State, i: nat) {
    i in s.threads && s.threads[i].Validated? && t == s.(threads := s.threads[i := Idle])
  }

  predicate CommitStep(s: State, t: State, i: nat) {
    && i in s.threads && s.threads[i].Validated?
    && var (registry, result) := Commit(s.registry, s.threads[i].validation);
       t == State(registry, s.threads[i := Idle], if result.Ok? then s.log + [Swapped(result.value)] else s.log)
  }

  ghost predicate Step(hash: Model -> string, known: set<Model>, s: State, t: State) {
    || (exists i, m :: RegisterStep(hash, known, s, t, i, m))
    || (exists i, c :: BeginStep(s, t, i, c))
    || (exists i :: AbandonStep(s, t, i))
    || (exists i :: CommitStep(s, t, i))
  }

  ghost predicate Initial(s: State) {
    s.registry == EMPTY && s.log == [] && forall i | i in s.threads :: s.threads[i].Idle?
  }

  ghost predicate Run(hash: Model -> string, known: set<Model>, run: seq<State>) {
    && run != [] && Initial(run[0])
    && forall k | 0 <= k < |run| - 1 :: Step(hash, known, run[k], run[k + 1])
  }

  /** Models that share an identifier at least share their dimension. A collision-free hash gives this. */
  ghost predicate CollisionFree(hash: Model -> string, known: set<Model>) {
    forall a, b | a in known && b in known && ValidModel(a) && ValidModel(b) && hash(a) == hash(b) :: a.dims == b.dims
  }

  // ------------------------------------------------------------------ invariant

  ghost predicate Sound(hash: Model -> string, known: set<Model>, r: Registry) {
    && (r.active.Null? <==> r.versions == map[]) && (r.active.Val? ==> r.active.v in r.versions)
    && forall id | id in r.versions ::
                r.versions[id] in known && ValidModel(r.versions[id]) && hash(r.versions[id]) == id
  }

  ghost predicate PendingFits(r: Registry, v: Validation) {
    v.previous in r.versions && v.candidate in r.versions && r.versions[v.previous].dims == r.versions[v.candidate].dims
  }

  ghost predicate Inv(hash: Model -> string, known: set<Model>, s: State) {
    && Sound(hash, known, s.registry)
    && forall i | i in s.threads && s.threads[i].Validated? :: PendingFits(s.registry, s.threads[i].validation)
  }

  /** No record is lost and no dimension altered. */
  ghost predicate Extends(r: Registry, q: Registry) {
    forall id | id in r.versions :: id in q.versions && q.versions[id].dims == r.versions[id].dims
  }

  function ActiveDims(r: Registry): Cell<int> {
    if r.active.Val? && r.active.v in r.versions then Val(r.versions[r.active.v].dims) else Null
  }

  /** What every step keeps: the invariant, the records' dimensions, the active dimension. */
  ghost predicate Keeps(hash: Model -> string, known: set<Model>, s: State, t: State) {
    Inv(hash, known, t) && Extends(s.registry, t.registry)
      && (ActiveDims(s.registry).Val? ==> ActiveDims(t.registry) == ActiveDims(s.registry))
  }

  lemma {:induction false} RegisterKeepsRecords(hash: Model -> string, known: set<Model>, r: Registry, m: Model)
    requires CollisionFree(hash, known) && Sound(hash, known, r) && m in known
    ensures var q := Register(hash, r, m).0;
      Sound(hash, known, q) && Extends(r, q) && (ActiveDims(r).Val? ==> ActiveDims(q) == ActiveDims(r))
  {
    if ValidModel(m) {
      var id := hash(m);
      assert id in r.versions ==> r.versions[id].dims == m.dims;
      assert id in Register(hash, r, m).0.versions;
    }
  }

  lemma {:induction false} RegisterKeeps(hash: Model -> string, known: set<Model>, s: State, t: State, i: nat, m: Model)
    requires CollisionFree(hash, known) && Inv(hash, known, s) && RegisterStep(hash, known, s, t, i, m)
    ensures Keeps(hash, known, s, t)
  {
    RegisterKeepsRecords(hash, known, s.registry, m);
  }

  lemma {:induction false} SwapStepKeeps(
      hash: Model -> string, known: set<Model>, s: State, t: State, i: nat, candidate: string)
    requires Inv(hash, known, s) && (BeginStep(s, t, i, candidate) || AbandonStep(s, t, i) || CommitStep(s, t, i))
    ensures Keeps(hash, known, s, t)
  {
    if CommitStep(s, t, i) { assert PendingFits(s.registry, s.threads[i].validation); }
  }

  lemma {:induction false} StepKeeps(hash: Model -> string, known: set<Model>, s: State, t: State)
    requires CollisionFree(hash, known) && Inv(hash, known, s) && Step(hash, known, s, t)
    ensures Keeps(hash, known, s, t)
  {
    if i, m :| RegisterStep(hash, known, s, t, i, m) {
      RegisterKeeps(hash, known, s, t, i, m);
    } else if i, c :| BeginStep(s, t, i, c) {
      SwapStepKeeps(hash, known, s, t, i, c);
    } else if i :| AbandonStep(s, t, i) {
      SwapStepKeeps(hash, known, s, t, i, "");
    } else {
      var i :| CommitStep(s, t, i);
      SwapStepKeeps(hash, known, s, t, i, "");
    }
  }

  lemma {:induction false} RunKeeps(hash: Model -> string, known: set<Model>, run: seq<State>, k: nat)
    requires CollisionFree(hash, known) && Run(hash, known, run) && k < |run|
    ensures Inv(hash, known, run[k])
  {
    if k > 0 {
      RunKeeps(hash, known, run, k - 1);
      assert Step(hash, known, run[k - 1], run[k - 1 + 1]);
      StepKeeps(hash, known, run[k - 1], run[k]);
    }
  }

  lemma {:induction false} KeepsInRun(hash: Model -> string, known: set<Model>, run: seq<State>, k: nat)
    requires CollisionFree(hash, known) && Run(hash, known, run) && 0 < k < |run|
    ensures Keeps(hash, known, run[k - 1], run[k])
  {
    RunKeeps(hash, known, run, k - 1);
    assert Step(hash, known, run[k - 1], run[k - 1 + 1]);
    StepKeeps(hash, known, run[k - 1], run[k]);
  }

  // ------------------------------------------------------------------ refinement

  /** The contract's own state after executing the logged operations one by one. */
  function Replay(hash: Model -> string, log: seq<Event>): Registry {
    if log == [] then EMPTY
    else
      var q := Replay(hash, log[..|log| - 1]);
      match log[|log| - 1]
      case Registered(m, _) => Register(hash, q, m).0
      case Swapped(swap) => AtomicSwap(q, swap.active).0
      case Refused(candidate, _) => AtomicSwap(q, candidate).0
  }

  /** The contract, executing the log one event at a time, reaches `r` and gives every recorded outcome. */
  ghost predicate Replays(hash: Model -> string, log: seq<Event>, r: Registry)
    decreases |log|
  {
    if log == [] then r == EMPTY
    else
      var q := Replay(hash, log[..|log| - 1]);
      Replays(hash, log[..|log| - 1], q) && Explains(hash, q, log[|log| - 1], r)
  }

  ghost predicate Explains(hash: Model -> string, q: Registry, e: Event, r: Registry) {
    match e
    case Registered(m, outcome) => Register(hash, q, m) == (r, outcome)
    case Swapped(swap) => AtomicSwap(q, swap.active) == (r, Ok(swap))
    case Refused(candidate, error) =>
      // the contract refuses too, for the same reason unless nothing was ever registered
      && r == q && AtomicSwap(q, candidate).1 == Err(if error == NoActiveVersion then UnknownVersion else error)
      && (error == NoActiveVersion ==> q.versions == map[])
  }

  /** The step is invisible to the contract, or adds one event that the contract can execute. */
  ghost predicate Refines(hash: Model -> string, s: State, t: State) {
    || (t.log == s.log && t.registry == s.registry)
    || (|t.log| == |s.log| + 1 && t.log[..|s.log|] == s.log && Explains(hash, s.registry, t.log[|s.log|], t.registry))
  }

  lemma {:induction false} StepRefines(hash: Model -> string, known: set<Model>, s: State, t: State)
    requires Inv(hash, known, s) && Step(hash, known, s, t)
    ensures Refines(hash, s, t)
  {
    if i, m :| RegisterStep(hash, known, s, t, i, m) {
    } else if i, c :| BeginStep(s, t, i, c) {
    } else if i :| AbandonStep(s, t, i) {
    } else {
      var i :| CommitStep(s, t, i);
      assert PendingFits(s.registry, s.threads[i].validation);
    }
  }

  lemma {:induction false} RefinesInRun(hash: Model -> string, known: set<Model>, run: seq<State>, k: nat)
    requires CollisionFree(hash, known) && Run(hash, known, run) && 0 < k < |run|
    ensures Refines(hash, run[k - 1], run[k])
  {
    RunKeeps(hash, known, run, k - 1);
    assert Step(hash, known, run[k - 1], run[k - 1 + 1]);
    StepRefines(hash, known, run[k - 1], run[k]);
  }

  /** Every interleaving of registrations and two-phase swaps is a run of the one-lock contract with the
      same registry and the same outcomes. */
  lemma {:induction false} TwoPhaseRefinesAtomic(hash: Model -> string, known: set<Model>, run: seq<State>, k: nat)
    requires CollisionFree(hash, known) && Run(hash, known, run) && k < |run|
    ensures Replays(hash, run[k].log, run[k].registry) && Replay(hash, run[k].log) == run[k].registry
  {
    if k > 0 {
      TwoPhaseRefinesAtomic(hash, known, run, k - 1);
      RefinesInRun(hash, known, run, k);
    }
  }

  // ------------------------------------------------------------------ the chain of swaps

  function Swaps(log: seq<Event>): seq<Swap> {
    if log == [] then []
    else Swaps(log[..|log| - 1]) + (if log[|log| - 1].Swapped? then [log[|log| - 1].swap] else [])
  }

  /** Each swap starts from what the swap before it made active, and the last one is active now. */
  ghost predicate Chained(swaps: seq<Swap>, active: Cell<string>) {
    && (forall i | 0 <= i < |swaps| - 1 :: swaps[i + 1].previous == Val(swaps[i].active))
    && (swaps != [] ==> active == Val(swaps[|swaps| - 1].active) && swaps[0].previous.Val?)
  }

  lemma {:induction false} ChainStep(hash: Model -> string, s: State, t: State)
    requires Refines(hash, s, t) && Chained(Swaps(s.log), s.registry.active)
    requires s.registry.active.Null? ==> s.registry.versions == map[]
    ensures Chained(Swaps(t.log), t.registry.active)
  {
    if t.log != s.log {
      assert t.log[..|t.log| - 1] == s.log;
      var e := t.log[|s.log|];
      if e.Swapped? { assert Swaps(t.log) == Swaps(s.log) + [e.swap]; } else { assert Swaps(t.log) == Swaps(s.log); }
    }
  }

  lemma {:induction false} SwapsFormChain(hash: Model -> string, known: set<Model>, run: seq<State>, k: nat)
    requires CollisionFree(hash, known) && Run(hash, known, run) && k < |run|
    ensures Chained(Swaps(run[k].log), run[k].registry.active)
  {
    if k > 0 {
      SwapsFormChain(hash, known, run, k - 1);
      RunKeeps(hash, known, run, k - 1);
      RefinesInRun(hash, known, run, k);
      ChainStep(hash, run[k - 1], run[k]);
    }
  }

  // ------------------------------------------------------------------ queries stay valid

  /** From `r` to `q` no record is lost and the dimension behind the active alias stays. */
  ghost predicate Follows(r: Registry, q: Registry) {
    Extends(r, q) && (ActiveDims(r).Val? ==> ActiveDims(q) == ActiveDims(r))
  }

  lemma {:induction false} FollowsOn(r: Registry, q: Registry, p: Registry)
    requires Follows(r, q) && Follows(q, p)
    ensures Follows(r, p)
  {
  }

  lemma {:induction false} ChainFollows(registries: seq<Registry>, j: nat, k: nat)
    requires forall i | 0 < i < |registries| :: Follows(registries[i - 1], registries[i])
    requires j <= k < |registries|
    ensures Follows(registries[j], registries[k])
  {
    if j < k {
      ChainFollows(registries, j, k - 1);
      FollowsOn(registries[j], registries[k - 1], registries[k]);
    }
  }

  function Registries(run: seq<State>): (r: seq<Registry>)
    ensures |r| == |run| && forall i | 0 <= i < |r| :: r[i] == run[i].registry
  {
    if run == [] then [] else Registries(run[..|run| - 1]) + [run[|run| - 1].registry]
  }

  lemma {:induction false} StepFollows(hash: Model -> string, known: set<Model>, run: seq<State>, k: nat)
    requires CollisionFree(hash, known) && Run(hash, known, run) && 0 < k < |run|
    ensures Follows(run[k - 1].registry, run[k].registry)
  {
    KeepsInRun(hash, known, run, k);
  }

  lemma {:induction false} RunFollows(hash: Model -> string, known: set<Model>, run: seq<State>, j: nat, k: nat)
    requires CollisionFree(hash, known) && Run(hash, known, run) && j <= k < |run|
    ensures Follows(run[j].registry, run[k].registry)
  {
    var registries := Registries(run);
    forall i | 0 < i < |registries| ensures Follows(registries[i - 1], registries[i]) {
      StepFollows(hash, known, run, i);
    }
    ChainFollows(registries, j, k);
  }

  /** Between any two points of a run the active dimension is the same and the old alias still resolves,
      so a query vector that fitted before any number of swaps fits after them, under either alias. */
  lemma {:induction false} QueriesSurviveSwaps(
      hash: Model -> string, known: set<Model>, run: seq<State>, j: nat, k: nat, length: nat)
    requires CollisionFree(hash, known) && Run(hash, known, run) && j <= k < |run|
    requires run[j].registry.active.Val?
    ensures run[k].registry.active.Val?
    ensures var before, after := run[j].registry, run[k].registry;
      && before.active.v in before.versions && after.active.v in after.versions && before.active.v in after.versions
      && (before.versions[before.active.v].dims == length <==> after.versions[after.active.v].dims == length)
      && (before.versions[before.active.v].dims == length ==> after.versions[before.active.v].dims == length)
  {
    RunKeeps(hash, known, run, j);
    RunKeeps(hash, known, run, k);
    RunFollows(hash, known, run, j, k);
  }

  /** A run never changes the dimension behind the active alias. */
  ghost predicate DimensionStable(run: seq<State>) {
    forall j, k | 0 <= j <= k < |run| && ActiveDims(run[j].registry).Val? ::
                ActiveDims(run[k].registry) == ActiveDims(run[j].registry)
  }

  lemma {:induction false} StableStep(hash: Model -> string, known: set<Model>, run: seq<State>, j: nat, k: nat)
    requires CollisionFree(hash, known) && Run(hash, known, run) && j <= k < |run| && ActiveDims(run[j].registry).Val?
    ensures ActiveDims(run[k].registry) == ActiveDims(run[j].registry)
  {
    RunFollows(hash, known, run, j, k);
  }

  /** The hash condition is exactly what the guarantee needs: with two models of different dimension
      under one identifier, registering both already changes the active dimension. */
  lemma {:induction false} StableIffCollisionFree(hash: Model -> string, known: set<Model>)
    ensures CollisionFree(hash, known) <==> forall run: seq<State> | Run(hash, known, run) :: DimensionStable(run)
  {
    if CollisionFree(hash, known) {
      forall run: seq<State> | Run(hash, known, run) ensures DimensionStable(run) {
        forall j, k | 0 <= j <= k < |run| && ActiveDims(run[j].registry).Val?
          ensures ActiveDims(run[k].registry) == ActiveDims(run[j].registry)
        {
          StableStep(hash, known, run, j, k);
        }
      }
    } else {
      var a, b :| a in known && b in known && ValidModel(a) && ValidModel(b) && hash(a) == hash(b) && a.dims != b.dims;
      var s0 := State(EMPTY, map[0 := Idle], []);
      var s1 := State(Register(hash, s0.registry, a).0, s0.threads, s0.log
                      + [Registered(a, Register(hash, s0.registry, a).1)]);
      var s2 := State(Register(hash, s1.registry, b).0, s1.threads, s1.log
                      + [Registered(b, Register(hash, s1.registry, b).1)]);
      var run := [s0, s1, s2];
      assert RegisterStep(hash, known, s0, s1, 0, a) && RegisterStep(hash, known, s1, s2, 0, b);
      forall k | 0 <= k < |run| - 1 ensures Step(hash, known, run[k], run[k + 1]) {
        if k == 0 { assert run[k] == s0 && run[k + 1] == s1; } else { assert run[k] == s1 && run[k + 1] == s2; }
      }
      assert Run(hash, known, run);
      assert run[1] == s1 && run[2] == s2;
    }
  }
}
