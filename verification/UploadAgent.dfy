/** The on-premises upload agents: any number of them serve an at-least-once queue, each storing the file
    before its completion marker and deleting the message last. Agents may crash between any two actions. */
module UploadAgent {
  import opened Wrappers
  import opened Chunks
  import opened AgentSources

  // ---------------------------------------------------------------- keys

  function CasKey(prefix: string, hash: string): string { prefix + "/Data/" + hash + ".xxh128" }

  function MarkerKey(prefix: string, rootId: string, pathKey: string): string {
    prefix + "/PendingUploads/" + rootId + "/" + pathKey + ".xxh128"
  }

  /** Under one prefix a marker never overwrites an object. */
  lemma KeysDisjoint(prefix: string, hash: string, rootId: string, pathKey: string)
    ensures CasKey(prefix, hash) != MarkerKey(prefix, rootId, pathKey)
  {
    var n := |prefix|;
    assert CasKey(prefix, hash)[n + 1] == 'D' && MarkerKey(prefix, rootId, pathKey)[n + 1] == 'P';
  }

  /** Across prefixes it may: the same string can be read both ways. */
  lemma KeysCollideAcrossPrefixes(prefix: string, rootId: string, pathKey: string)
    ensures CasKey(prefix + "/PendingUploads/" + rootId, pathKey) == MarkerKey(prefix, rootId + "/Data", pathKey)
  {
    assert "/Data" + "/" == "/Data/";
    assert prefix + "/PendingUploads/" + rootId + "/Data/" + pathKey + ".xxh128"
        == prefix + "/PendingUploads/" + (rootId + "/Data") + "/" + pathKey + ".xxh128";
  }

  lemma SlashAt(r: string, j: string, s: string, k: string)
    requires r + "/" + j == s + "/" + k && |j| > |k|
    ensures j[|j| - |k| - 1] == '/'
  {
    var x, p := r + "/" + j, |r| + |j| - |k|;
    assert x[p] == (s + "/" + k)[p] == '/';
    assert x[p] == j[|j| - |k| - 1];
  }

  lemma LastSlash(r: string, j: string, s: string, k: string)
    requires r + "/" + j == s + "/" + k && '/' !in j && '/' !in k
    ensures r == s && j == k
  {
    if |j| > |k| { SlashAt(r, j, s, k); }
    if |k| > |j| { SlashAt(s, k, r, j); }
    var x := r + "/" + j;
    assert r == x[..|r|] && s == (s + "/" + k)[..|s|];
    assert j == x[|r| + 1..] && k == (s + "/" + k)[|s| + 1..];
  }

  /** Hashes without `/` and prefixes are told apart by their object keys. */
  lemma CasKeyInjective(p: string, a: string, q: string, b: string)
    requires '/' !in a && '/' !in b
    ensures CasKey(p, a) == CasKey(q, b) <==> p == q && a == b
  {
    var x, y := CasKey(p, a), CasKey(q, b);
    if x == y {
      assert x[..|x| - 7] == (p + "/Data") + "/" + a && y[..|y| - 7] == (q + "/Data") + "/" + b;
      LastSlash(p + "/Data", a, q + "/Data", b);
      assert p == (p + "/Data")[..|p|] && q == (q + "/Data")[..|q|];
    }
  }

  /** Path keys without `/` are told apart, whatever the root ids. */
  lemma MarkerKeyInjective(prefix: string, r: string, j: string, s: string, k: string)
    requires '/' !in j && '/' !in k
    ensures MarkerKey(prefix, r, j) == MarkerKey(prefix, s, k) <==> r == s && j == k
  {
    var x, y, n := MarkerKey(prefix, r, j), MarkerKey(prefix, s, k), |prefix| + 16;
    if x == y {
      assert x[n..|x| - 7] == r + "/" + j && y[n..|y| - 7] == s + "/" + k;
      LastSlash(r, j, s, k);
    }
  }

  // ---------------------------------------------------------------- requests and files

  /** A message body; absent fields read as empty, or as the agent's own bucket and prefix. JSON that is no object
      has no fields to read: that raises. */
  datatype Body =
    | NotJson
    | NotAnObject
    | Request(rootId: string, relativePath: string, pathKey: string, sourceRootPath: string,
              bucket: Option<string>, rootPrefix: Option<string>)

  datatype Message = Message(id: nat, body: Body)

  /** What does not change: the agents' machine and configuration, and the hash. */
  datatype Env = Env(machine: Machine, bucket: string, prefix: string, h: HashFunction)

  predicate WellFormedRequest(body: Body) {
    body.Request? && body.rootId != "" && body.relativePath != "" && body.pathKey != ""
  }

  function Bucket(env: Env, r: Body): string
    requires r.Request?
  {
    r.bucket.GetOr(env.bucket)
  }

  function Prefix(env: Env, r: Body): string
    requires r.Request?
  {
    r.rootPrefix.GetOr(env.prefix)
  }

  type Location = (string, string)

  function MarkerAt(env: Env, r: Body): Location
    requires r.Request?
  {
    (Bucket(env, r), MarkerKey(Prefix(env, r), r.rootId, r.pathKey))
  }

  /** Marker and object go to the bucket and under the prefix the request names, or else the agent's own. */
  lemma GoesWhereNamed(env: Env, r: Body, content: Bytes)
    requires r.Request?
    ensures var bucket := if r.bucket.Some? then r.bucket.value else env.bucket;
      var prefix := if r.rootPrefix.Some? then r.rootPrefix.value else env.prefix;
      && MarkerAt(env, r) == (bucket, prefix + "/PendingUploads/" + r.rootId + "/" + r.pathKey + ".xxh128")
      && ObjectAt(env, r, content) == (bucket, prefix + "/Data/" + env.h(content) + ".xxh128")
  {
  }

  function OutcomeOf(env: Env, r: Body): Outcome
    requires r.Request?
  {
    Serve(env.machine, r.sourceRootPath, r.relativePath)
  }

  datatype Object =
    | Data(bytes: Bytes)
    | Completed(hash: string, size: nat, relativePath: string)
    | Failed(reason: Failure, relativePath: string)

  /** The marker a request ends with. */
  function MarkerFor(env: Env, r: Body): Object
    requires r.Request?
  {
    match OutcomeOf(env, r)
    case Fails(reason) => Failed(reason, r.relativePath)
    case Serves(content) => Completed(env.h(content), |content|, r.relativePath)
  }

  /** A marker says what became of the request, the content's hash and size or why it failed, and for which path. */
  lemma MarkerSays(env: Env, r: Body)
    requires r.Request?
    ensures match Serve(env.machine, r.sourceRootPath, r.relativePath)
      case Serves(content) => MarkerFor(env, r) == Completed(env.h(content), |content|, r.relativePath)
      case Fails(reason) => MarkerFor(env, r) == Failed(reason, r.relativePath)
  {
  }

  /** Status, hash and size of a marker. */
  datatype Summary = NoMarker | CompletedWith(hash: string, size: nat) | FailedMarker

  function SummaryOf(o: Object): Summary {
    match o
    case Data(_) => NoMarker
    case Completed(hash, size, _) => CompletedWith(hash, size)
    case Failed(_, _) => FailedMarker
  }

  // ---------------------------------------------------------------- the transition system

  datatype Phase =
    | Idle
    | Received(m: Message)    // about to check the marker
    | Unmarked(m: Message)    // no marker seen; about to resolve and hash the file
    | Hashed(m: Message)      // about to ask for the object
    | Uploading(m: Message)   // object not there; about to upload it
    | Stored(m: Message)      // object there; about to write the completion marker
    | Processed(m: Message)   // about to delete the message

  datatype State = State(store: map<Location, Object>, sent: set<Message>, undeleted: set<Message>, agents: seq<Phase>)

  function ObjectAt(env: Env, r: Body, content: Bytes): Location
    requires r.Request?
  {
    (Bucket(env, r), CasKey(Prefix(env, r), env.h(content)))
  }

  predicate CanAct(env: Env, p: Phase) {
    match p
    case Idle => false
    case Received(m) => !m.body.NotAnObject?
    case Unmarked(m) => m.body.Request?
    case Hashed(m) => m.body.Request? && OutcomeOf(env, m.body).Serves?
    case Uploading(m) => m.body.Request? && OutcomeOf(env, m.body).Serves?
    case Stored(m) => m.body.Request? && OutcomeOf(env, m.body).Serves?
    case Processed(_) => true
  }

  /** An agent's next action: the store and the agent after it. A malformed request is left in the queue. */
  function Act(env: Env, store: map<Location, Object>, p: Phase): (map<Location, Object>, Phase)
    requires CanAct(env, p)
  {
    match p
    case Received(m) =>
      if !WellFormedRequest(m.body) then (store, Idle)
      else if MarkerAt(env, m.body) in store then (store, Processed(m))
      else (store, Unmarked(m))
    case Unmarked(m) =>
      if OutcomeOf(env, m.body).Serves? then (store, Hashed(m))
      else (store[MarkerAt(env, m.body) := MarkerFor(env, m.body)], Processed(m))
    case Hashed(m) =>
      (store, if ObjectAt(env, m.body, OutcomeOf(env, m.body).content) in store then Stored(m) else Uploading(m))
    case Uploading(m) =>
      var content := OutcomeOf(env, m.body).content;
      (store[ObjectAt(env, m.body, content) := Data(content)], Stored(m))
    case Stored(m) => (store[MarkerAt(env, m.body) := MarkerFor(env, m.body)], Processed(m))
    case Processed(m) => (store, Idle)
  }

  ghost predicate ActStep(env: Env, s: State, s': State, i: nat) {
    && i < |s.agents| && CanAct(env, s.agents[i])
    && var next := Act(env, s.store, s.agents[i]);
       s' == State(next.0, s.sent,
                   if s.agents[i].Processed? then s.undeleted - {s.agents[i].m} else s.undeleted,
                   s.agents[i := next.1])
  }

  /** Delivery is at least once: any message ever sent may be received, even again, even after it was deleted. */
  ghost predicate ReceiveStep(s: State, s': State, i: nat, m: Message) {
    i < |s.agents| && s.agents[i].Idle? && m in s.sent && s' == s.(agents := s.agents[i := Received(m)])
  }

  /** An agent crashes, or a request fails with an exception; it starts over. */
  ghost predicate CrashStep(s: State, s': State, i: nat) {
    i < |s.agents| && s' == s.(agents := s.agents[i := Idle])
  }

  ghost predicate SendStep(s: State, s': State, m: Message) {
    m !in s.sent && s' == s.(sent := s.sent + {m}, undeleted := s.undeleted + {m})
  }

  ghost predicate Next(env: Env, s: State, s': State) {
    || (exists i: nat :: ActStep(env, s, s', i))
    || (exists i: nat, m :: ReceiveStep(s, s', i, m))
    || (exists i: nat :: CrashStep(s, s', i))
    || (exists m :: SendStep(s, s', m))
  }

  // ---------------------------------------------------------------- what each answer decides

  /** A request that lacks a field does nothing; one with a marker is done without a look at its file. */
  lemma MarkerDecides(env: Env, store: map<Location, Object>, m: Message)
    requires CanAct(env, Received(m))
    ensures var next := Act(env, store, Received(m));
      && next.0 == store
      && (next.1 == Idle <==>
          m.body.NotJson? || m.body.rootId == "" || m.body.relativePath == "" || m.body.pathKey == "")
      && (next.1 != Idle ==> next.1 == if MarkerAt(env, m.body) in store then Processed(m) else Unmarked(m))
      && (next.1 != Idle <==> WellFormedRequest(m.body))
  {
    hide MarkerAt;
  }

  /** A file that can be served is hashed; for one that cannot, only a failure marker is written. */
  lemma FileDecides(env: Env, store: map<Location, Object>, m: Message)
    requires CanAct(env, Unmarked(m))
    ensures var next := Act(env, store, Unmarked(m));
      match Serve(env.machine, m.body.sourceRootPath, m.body.relativePath)
      case Serves(_) => next == (store, Hashed(m))
      case Fails(reason) =>
        next == (store[MarkerAt(env, m.body) := Failed(reason, m.body.relativePath)], Processed(m))
  {
    hide MarkerAt, Serve;
  }

  /** An object is uploaded exactly if the store has none under its key; then the marker is written, the message
      deleted. */
  lemma ObjectDecides(env: Env, store: map<Location, Object>, m: Message, content: Bytes)
    requires m.body.Request? && Serve(env.machine, m.body.sourceRootPath, m.body.relativePath) == Serves(content)
    ensures var at := ObjectAt(env, m.body, content);
      && Act(env, store, Hashed(m)) == (store, if at in store then Stored(m) else Uploading(m))
      && Act(env, store, Uploading(m)) == (store[at := Data(content)], Stored(m))
    ensures var marker := Completed(env.h(content), |content|, m.body.relativePath);
      && Act(env, store, Stored(m)) == (store[MarkerAt(env, m.body) := marker], Processed(m))
      && Act(env, store, Processed(m)) == (store, Idle)
  {
    hide MarkerAt, ObjectAt, Serve;
  }

  // ---------------------------------------------------------------- runs

  /** The object a served request needs. */
  function ObjectOf(env: Env, r: Body): Location
    requires r.Request? && OutcomeOf(env, r).Serves?
  {
    ObjectAt(env, r, OutcomeOf(env, r).content)
  }

  predicate Served(env: Env, m: Message) { WellFormedRequest(m.body) && OutcomeOf(env, m.body).Serves? }

  /** The store has the object of this hash, with its content. */
  ghost predicate Held(env: Env, store: map<Location, Object>, bucket: string, prefix: string, hash: string) {
    var at := (bucket, CasKey(prefix, hash));
    at in store && store[at].Data? && env.h(store[at].bytes) == hash
  }

  /** Where these requests will look, what is stored before the agents start is in order. */
  ghost predicate SoundStore(env: Env, store: map<Location, Object>, requests: set<Message>) {
    && (forall m | m in requests && WellFormedRequest(m.body) && MarkerAt(env, m.body) in store
          && store[MarkerAt(env, m.body)].Completed? ::
          Held(env, store, Bucket(env, m.body), Prefix(env, m.body), store[MarkerAt(env, m.body)].hash))
    && (forall m | m in requests && Served(env, m) && ObjectOf(env, m.body) in store ::
          Held(env, store, Bucket(env, m.body), Prefix(env, m.body), env.h(OutcomeOf(env, m.body).content)))
  }

  /** Nothing is sent yet; the store may have anything. */
  ghost predicate Init(s: State) {
    && s.sent == {} && s.undeleted == {} && (forall i | 0 <= i < |s.agents| :: s.agents[i].Idle?)
  }

  ghost predicate Run(env: Env, run: seq<State>) {
    run != [] && Init(run[0]) && forall k | 0 <= k < |run| - 1 :: Next(env, run[k], run[k + 1])
  }

  // ---------------------------------------------------------------- the invariant, whatever is sent

  ghost predicate PhaseOk(env: Env, initially: map<Location, Object>, s: State, p: Phase) {
    match p
    case Idle => true
    case Received(m) => m in s.sent
    case Unmarked(m) => Pending(env, initially, s, m)
    case Hashed(m) => Pending(env, initially, s, m) && Served(env, m)
    case Uploading(m) => Pending(env, initially, s, m) && Served(env, m) && ObjectOf(env, m.body) !in initially
    case Stored(m) => Pending(env, initially, s, m) && Served(env, m) && ObjectOf(env, m.body) in s.store
    case Processed(m) => m in s.sent && WellFormedRequest(m.body) && MarkerAt(env, m.body) in s.store
  }

  /** A request whose marker was found missing. */
  ghost predicate Pending(env: Env, initially: map<Location, Object>, s: State, m: Message) {
    m in s.sent && WellFormedRequest(m.body) && MarkerAt(env, m.body) !in initially
  }

  /** No well-formed request is lost: it is still in the queue, or has its marker. */
  ghost predicate Answered(env: Env, s: State, m: Message) {
    WellFormedRequest(m.body) ==> m in s.undeleted || MarkerAt(env, m.body) in s.store
  }

  /** What is at `at` is the object of request `m`. */
  ghost predicate ObjectFrom(env: Env, s: State, at: Location, m: Message) {
    && m in s.sent && Served(env, m) && at == ObjectOf(env, m.body)
    && at in s.store && s.store[at].Data? && env.h(s.store[at].bytes) == env.h(OutcomeOf(env, m.body).content)
  }

  /** What is at `at` is the marker of request `m`, whose object was stored before. */
  ghost predicate MarkerFrom(env: Env, s: State, at: Location, m: Message) {
    && m in s.sent && WellFormedRequest(m.body) && at == MarkerAt(env, m.body)
    && at in s.store && s.store[at] == MarkerFor(env, m.body)
    && (OutcomeOf(env, m.body).Serves? ==> ObjectOf(env, m.body) in s.store)
  }

  ghost predicate Explained(env: Env, s: State, at: Location) {
    (exists m :: ObjectFrom(env, s, at, m)) || (exists m :: MarkerFrom(env, s, at, m))
  }

  ghost predicate Inv(env: Env, initially: map<Location, Object>, s: State) {
    && s.undeleted <= s.sent
    && (forall i | 0 <= i < |s.agents| :: PhaseOk(env, initially, s, s.agents[i]))
    && (forall m | m in s.sent :: Answered(env, s, m))
    && (forall at | at in initially :: at in s.store && s.store[at] == initially[at])
    && (forall at | at in s.store && at !in initially :: Explained(env, s, at))
  }

  /** A later state: nothing sent is forgotten, nothing stored disappears. */
  ghost predicate Grows(s: State, s': State) { s.sent <= s'.sent && s.store.Keys <= s'.store.Keys }

  lemma PhaseGrows(env: Env, initially: map<Location, Object>, s: State, s': State, p: Phase)
    requires PhaseOk(env, initially, s, p) && Grows(s, s')
    ensures PhaseOk(env, initially, s', p)
  {
    hide MarkerAt, ObjectOf, OutcomeOf, WellFormedRequest;
  }

  lemma ExplainedGrows(env: Env, s: State, s': State, at: Location)
    requires Explained(env, s, at) && Grows(s, s') && at in s.store && at in s'.store && s'.store[at] == s.store[at]
    ensures Explained(env, s', at)
  {
    hide MarkerAt, ObjectOf, OutcomeOf, MarkerFor, Served, WellFormedRequest;
    if m :| ObjectFrom(env, s, at, m) {
      assert ObjectFrom(env, s', at, m);
    } else {
      var m :| MarkerFrom(env, s, at, m);
      assert MarkerFrom(env, s', at, m);
    }
  }

  /** What an action writes: nothing that was there at the start, and only an object or a marker of a sent request. */
  lemma ActWrites(env: Env, initially: map<Location, Object>, s: State, s': State, i: nat)
    requires Inv(env, initially, s) && ActStep(env, s, s', i)
    ensures Grows(s, s') && PhaseOk(env, initially, s', s'.agents[i])
    ensures forall at | at in s'.store && !(at in s.store && s'.store[at] == s.store[at]) ::
              at !in initially && Explained(env, s', at)
  {
    hide MarkerAt, ObjectAt, OutcomeOf, MarkerFor, Answered, WellFormedRequest, Explained;
    var p := s.agents[i];
    assert PhaseOk(env, initially, s, p);
    forall at | at in s'.store && !(at in s.store && s'.store[at] == s.store[at])
      ensures at !in initially && Explained(env, s', at)
    {
      if p.Uploading? { ObjectExplained(env, s', p.m); } else { MarkerExplained(env, s', p.m); }
    }
  }

  lemma ObjectExplained(env: Env, s: State, m: Message)
    requires m in s.sent && Served(env, m) && ObjectOf(env, m.body) in s.store
    requires s.store[ObjectOf(env, m.body)] == Data(OutcomeOf(env, m.body).content)
    ensures Explained(env, s, ObjectOf(env, m.body))
  {
    hide MarkerAt, ObjectAt, OutcomeOf, MarkerFor;
    assert ObjectFrom(env, s, ObjectOf(env, m.body), m);
  }

  lemma MarkerExplained(env: Env, s: State, m: Message)
    requires m in s.sent && WellFormedRequest(m.body) && MarkerAt(env, m.body) in s.store
    requires s.store[MarkerAt(env, m.body)] == MarkerFor(env, m.body)
    requires OutcomeOf(env, m.body).Serves? ==> ObjectOf(env, m.body) in s.store
    ensures Explained(env, s, MarkerAt(env, m.body))
  {
    hide MarkerAt, ObjectAt, OutcomeOf, MarkerFor;
    assert MarkerFrom(env, s, MarkerAt(env, m.body), m);
  }

  lemma ProcessedAnswered(env: Env, initially: map<Location, Object>, s: State, p: Phase)
    requires PhaseOk(env, initially, s, p) && p.Processed?
    ensures MarkerAt(env, p.m.body) in s.store && WellFormedRequest(p.m.body)
  {
  }

  /** Every action of an agent keeps the invariant. */
  lemma ActKeeps(env: Env, initially: map<Location, Object>, s: State, s': State, i: nat)
    requires Inv(env, initially, s) && ActStep(env, s, s', i)
    ensures Inv(env, initially, s') && Grows(s, s')
  {
    ActWrites(env, initially, s, s', i);
    hide Act, CanAct, PhaseOk, Explained, MarkerAt, WellFormedRequest;
    var p := s.agents[i];
    assert PhaseOk(env, initially, s, p);
    if p.Processed? { ProcessedAnswered(env, initially, s, p); }
    forall j | 0 <= j < |s'.agents| ensures PhaseOk(env, initially, s', s'.agents[j]) {
      if j != i { PhaseGrows(env, initially, s, s', s.agents[j]); }
    }
    forall at | at in s'.store && at !in initially ensures Explained(env, s', at) {
      if at in s.store && s'.store[at] == s.store[at] { ExplainedGrows(env, s, s', at); }
    }
    forall m | m in s'.sent ensures Answered(env, s', m) {
      assert Answered(env, s, m);
    }
  }

  /** Sending, receiving and crashing leave the store alone. */
  lemma QuietKeeps(env: Env, initially: map<Location, Object>, s: State, s': State)
    requires Inv(env, initially, s) && s'.store == s.store && s.sent <= s'.sent
    requires s.undeleted <= s'.undeleted <= s'.sent && s'.sent - s.sent <= s'.undeleted
    requires forall j | 0 <= j < |s'.agents| ::
      s'.agents[j] in s.agents || s'.agents[j] == Idle || (s'.agents[j].Received? && s'.agents[j].m in s'.sent)
    ensures Inv(env, initially, s')
  {
    hide PhaseOk, Explained, MarkerAt, WellFormedRequest;
    FreshPhases(env, initially, s');
    forall j | 0 <= j < |s'.agents| ensures PhaseOk(env, initially, s', s'.agents[j]) {
      if s'.agents[j] in s.agents { PhaseGrows(env, initially, s, s', s'.agents[j]); }
    }
    forall at | at in s'.store && at !in initially ensures Explained(env, s', at) {
      ExplainedGrows(env, s, s', at);
    }
    forall m | m in s'.sent ensures Answered(env, s', m) {
      if m in s.sent { assert Answered(env, s, m); }
    }
  }

  /** The invariant survives every step, whatever is sent. */
  lemma InvKept(env: Env, initially: map<Location, Object>, s: State, s': State)
    requires Inv(env, initially, s) && Next(env, s, s')
    ensures Inv(env, initially, s') && Grows(s, s')
  {
    assert s.undeleted <= s.sent;
    if i: nat :| ActStep(env, s, s', i) {
      ActKeeps(env, initially, s, s', i);
    } else {
      hide ActStep, Inv;
      QuietKeeps(env, initially, s, s');
    }
  }

  lemma FreshPhases(env: Env, initially: map<Location, Object>, s: State)
    ensures PhaseOk(env, initially, s, Idle)
    ensures forall m | m in s.sent :: PhaseOk(env, initially, s, Received(m))
  {
  }

  lemma {:induction false} RunInv(env: Env, run: seq<State>, k: nat)
    requires Run(env, run) && k < |run|
    ensures Inv(env, run[0].store, run[k])
  {
    hide Next;
    if k > 0 {
      RunInv(env, run, k - 1);
      InvKept(env, run[0].store, run[k - 1], run[k]);
    } else {
      FreshPhases(env, run[0].store, run[0]);
    }
  }

  lemma {:induction false} RunGrows(env: Env, run: seq<State>, j: nat, k: nat)
    requires Run(env, run) && j <= k < |run|
    ensures Grows(run[j], run[k])
    decreases k
  {
    hide Next, Init, Inv;
    if j < k {
      RunGrows(env, run, j, k - 1);
      RunInv(env, run, k - 1);
      InvKept(env, run[0].store, run[k - 1], run[k]);
    }
  }

  /** What was stored at the start is never written over, whatever is sent. */
  lemma NothingOverwritten(env: Env, run: seq<State>, k: nat, at: Location)
    requires Run(env, run) && k < |run| && at in run[0].store
    ensures at in run[k].store && run[k].store[at] == run[0].store[at]
  {
    RunInv(env, run, k);
  }

  /** In every run, whatever is sent and whatever crashes: each well-formed request is still queued or has a marker. */
  lemma NothingLost(env: Env, run: seq<State>, k: nat, m: Message)
    requires Run(env, run) && k < |run| && m in run[k].sent && WellFormedRequest(m.body)
    ensures m in run[k].undeleted || MarkerAt(env, m.body) in run[k].store
  {
    RunInv(env, run, k);
    assert Answered(env, run[k], m);
  }

  // ---------------------------------------------------------------- safety, and exactly when

  /** Content hashes are hex digests. */
  ghost predicate HashesPlain(env: Env) { forall b: Bytes :: '/' !in env.h(b) }

  /** No request's marker is where another one's object goes. */
  ghost predicate MarkersApart(env: Env, sent: set<Message>) {
    forall m, n | m in sent && n in sent && WellFormedRequest(m.body) && Served(env, n) ::
      MarkerAt(env, m.body) != ObjectOf(env, n.body)
  }

  /** Requests that share a marker, one of them served, use one prefix. */
  ghost predicate PrefixesAgree(env: Env, sent: set<Message>) {
    forall m, n | m in sent && n in sent && WellFormedRequest(m.body) && Served(env, n)
      && MarkerAt(env, m.body) == MarkerAt(env, n.body) :: Prefix(env, m.body) == Prefix(env, n.body)
  }

  /** Every completed marker of a request names an object that exists, in the request's bucket and under its prefix,
      and hashes to its key. */
  ghost predicate Safe(env: Env, s: State) {
    forall m | m in s.sent && WellFormedRequest(m.body) && MarkerAt(env, m.body) in s.store
      && s.store[MarkerAt(env, m.body)].Completed? ::
      Held(env, s.store, Bucket(env, m.body), Prefix(env, m.body), s.store[MarkerAt(env, m.body)].hash)
  }

  lemma HeldStill(env: Env, initially: map<Location, Object>, s: State, bucket: string, prefix: string, hash: string)
    requires Inv(env, initially, s) && Held(env, initially, bucket, prefix, hash)
    ensures Held(env, s.store, bucket, prefix, hash)
  {
    hide CasKey, PhaseOk, Answered, Explained;
  }

  /** The object of a served request, once stored, is right. */
  lemma ObjectHeld(env: Env, initially: map<Location, Object>, s: State, m: Message)
    requires Inv(env, initially, s) && SoundStore(env, initially, s.sent)
    requires HashesPlain(env) && MarkersApart(env, s.sent)
    requires m in s.sent && Served(env, m) && ObjectOf(env, m.body) in s.store
    ensures Held(env, s.store, Bucket(env, m.body), Prefix(env, m.body), env.h(OutcomeOf(env, m.body).content))
  {
    hide CasKey, MarkerKey, OutcomeOf, PhaseOk, Answered, MarkerFor;
    var at, hash := ObjectOf(env, m.body), env.h(OutcomeOf(env, m.body).content);
    if at in initially {
      HeldStill(env, initially, s, Bucket(env, m.body), Prefix(env, m.body), hash);
    } else {
      assert Explained(env, s, at);
      var n :| ObjectFrom(env, s, at, n);
      CasKeyInjective(Prefix(env, m.body), hash, Prefix(env, n.body), env.h(OutcomeOf(env, n.body).content));
    }
  }

  /** The completed marker at `at` was written for a request, and the object that request needs is there. */
  ghost predicate Backed(env: Env, s: State, at: Location) {
    exists m | m in s.sent && Served(env, m) && at == MarkerAt(env, m.body) ::
      at in s.store && s.store[at] == MarkerFor(env, m.body)
      && Held(env, s.store, at.0, Prefix(env, m.body), env.h(OutcomeOf(env, m.body).content))
  }

  /** In every run: if no marker is where an object goes, every completed marker the agents wrote has its object,
      under the prefix of a request it was written for. */
  lemma WrittenMarkersBacked(env: Env, run: seq<State>, k: nat, at: Location)
    requires Run(env, run) && k < |run| && HashesPlain(env) && SoundStore(env, run[0].store, run[k].sent)
    requires MarkersApart(env, run[k].sent)
    requires at in run[k].store && at !in run[0].store && run[k].store[at].Completed?
    ensures Backed(env, run[k], at)
  {
    RunInv(env, run, k);
    hide Run, MarkerAt, ObjectAt, OutcomeOf, PhaseOk, Answered, Held, SoundStore, MarkersApart, HashesPlain;
    assert Explained(env, run[k], at);
    var m :| MarkerFrom(env, run[k], at, m);
    ObjectHeld(env, run[0].store, run[k], m);
    assert at.0 == Bucket(env, m.body) by { assert MarkerAt(env, m.body).0 == Bucket(env, m.body); }
  }

  lemma MarkerHeld(env: Env, initially: map<Location, Object>, s: State, m: Message)
    requires Inv(env, initially, s) && SoundStore(env, initially, s.sent) && HashesPlain(env)
    requires MarkersApart(env, s.sent) && PrefixesAgree(env, s.sent)
    requires m in s.sent && WellFormedRequest(m.body) && MarkerAt(env, m.body) in s.store
    requires s.store[MarkerAt(env, m.body)].Completed?
    ensures Held(env, s.store, Bucket(env, m.body), Prefix(env, m.body), s.store[MarkerAt(env, m.body)].hash)
  {
    hide CasKey, MarkerKey, OutcomeOf, PhaseOk, Answered, Held;
    var at := MarkerAt(env, m.body);
    if at in initially {
      HeldStill(env, initially, s, at.0, Prefix(env, m.body), s.store[at].hash);
    } else {
      assert Explained(env, s, at);
      var n :| MarkerFrom(env, s, at, n);
      ObjectHeld(env, initially, s, n);
    }
  }

  /** In every run with any number of agents, redeliveries and crashes, whichever prefixes the requests name: if no
      marker is where an object goes and requests that share a marker use one prefix, every completed marker of a
      request names an object that exists and hashes to its key. */
  lemma AgentSafety(env: Env, run: seq<State>, k: nat)
    requires Run(env, run) && k < |run| && HashesPlain(env) && SoundStore(env, run[0].store, run[k].sent)
    requires MarkersApart(env, run[k].sent) && PrefixesAgree(env, run[k].sent)
    ensures Safe(env, run[k])
  {
    RunInv(env, run, k);
    var s := run[k];
    hide Run, MarkersApart, PrefixesAgree, HashesPlain, SoundStore, Held, MarkerKey;
    forall m | m in s.sent && WellFormedRequest(m.body) && MarkerAt(env, m.body) in s.store
      && s.store[MarkerAt(env, m.body)].Completed?
      ensures Held(env, s.store, Bucket(env, m.body), Prefix(env, m.body), s.store[MarkerAt(env, m.body)].hash)
    {
      MarkerHeld(env, run[0].store, s, m);
    }
  }

  /** Requests that all use one prefix, such as the agents' own, meet both conditions. */
  lemma OnePrefixSuffices(env: Env, sent: set<Message>, prefix: string)
    requires forall m | m in sent && WellFormedRequest(m.body) :: Prefix(env, m.body) == prefix
    ensures MarkersApart(env, sent) && PrefixesAgree(env, sent)
  {
    hide CasKey, MarkerKey, OutcomeOf;
    forall m, n | m in sent && n in sent && WellFormedRequest(m.body) && Served(env, n)
      ensures MarkerAt(env, m.body) != ObjectOf(env, n.body)
    {
      KeysDisjoint(prefix, env.h(OutcomeOf(env, n.body).content), m.body.rootId, m.body.pathKey);
    }
  }

  // ---------------------------------------------------------------- runs that fail

  ghost function Last(run: seq<State>): State
    requires run != []
  {
    run[|run| - 1]
  }

  /** The store after one agent alone has served `m`. */
  function AfterServing(env: Env, store: map<Location, Object>, m: Message): map<Location, Object>
    requires m.body.Request?
  {
    var withObject :=
      if OutcomeOf(env, m.body).Fails? || ObjectOf(env, m.body) in store then store
      else store[ObjectOf(env, m.body) := Data(OutcomeOf(env, m.body).content)];
    withObject[MarkerAt(env, m.body) := MarkerFor(env, m.body)]
  }

  lemma Extend(env: Env, run: seq<State>, s: State)
    requires Run(env, run) && Next(env, Last(run), s)
    ensures Run(env, run + [s]) && Last(run + [s]) == s
  {
    hide Next, Init;
    var longer := run + [s];
    forall k | 0 <= k < |longer| - 1 ensures Next(env, longer[k], longer[k + 1]) {
      if k < |run| - 1 { assert longer[k] == run[k] && longer[k + 1] == run[k + 1]; }
    }
  }

  /** The only agent takes its next action. */
  lemma ActAlone(env: Env, run: seq<State>) returns (longer: seq<State>)
    requires Run(env, run) && |Last(run).agents| == 1 && CanAct(env, Last(run).agents[0])
    ensures run <= longer && Run(env, longer) && Last(longer).sent == Last(run).sent
    ensures Last(longer).agents == [Act(env, Last(run).store, Last(run).agents[0]).1]
    ensures Last(longer).store == Act(env, Last(run).store, Last(run).agents[0]).0
  {
    hide Init, Act, CanAct;
    var s := Last(run);
    var next := Act(env, s.store, s.agents[0]);
    var undeleted := if s.agents[0].Processed? then s.undeleted - {s.agents[0].m} else s.undeleted;
    var s' := State(next.0, s.sent, undeleted, s.agents[0 := next.1]);
    assert ActStep(env, s, s', 0);
    Extend(env, run, s');
    longer := run + [s'];
  }

  lemma ReceiveAlone(env: Env, run: seq<State>, m: Message) returns (longer: seq<State>)
    requires Run(env, run) && Last(run).agents == [Idle] && m in Last(run).sent
    ensures run <= longer && Run(env, longer) && Last(longer) == Last(run).(agents := [Received(m)])
  {
    hide Init, ActStep;
    var s' := Last(run).(agents := [Received(m)]);
    assert ReceiveStep(Last(run), s', 0, m);
    Extend(env, run, s');
    longer := run + [s'];
  }

  /** One agent alone serves a request that has no marker. */
  lemma ServeAlone(env: Env, run: seq<State>, m: Message) returns (longer: seq<State>)
    requires Run(env, run) && Last(run).agents == [Idle] && m in Last(run).sent
    requires WellFormedRequest(m.body) && MarkerAt(env, m.body) !in Last(run).store
    ensures run <= longer && Run(env, longer) && Last(longer).agents == [Idle] && Last(longer).sent == Last(run).sent
    ensures Last(longer).store == AfterServing(env, Last(run).store, m)
  {
    hide Init, Next, MarkerAt, ObjectAt, OutcomeOf, MarkerFor;
    longer := ReceiveAlone(env, run, m);
    longer := ActAlone(env, longer);
    longer := ActAlone(env, longer);
    if OutcomeOf(env, m.body).Serves? {
      longer := ActAlone(env, longer);
      if Last(longer).agents[0].Uploading? { longer := ActAlone(env, longer); }
      longer := ActAlone(env, longer);
    }
    longer := ActAlone(env, longer);
  }

  /** One agent, an empty store, and two requests sent. */
  lemma SendBoth(env: Env, m: Message, n: Message) returns (run: seq<State>)
    requires m != n
    ensures Run(env, run) && run[0].store == map[] && Last(run) == State(map[], {m, n}, {m, n}, [Idle])
  {
    hide ActStep;
    var s0 := State(map[], {}, {}, [Idle]);
    var s1 := State(map[], {m}, {m}, [Idle]);
    var s2 := State(map[], {m, n}, {m, n}, [Idle]);
    run := [s0];
    assert SendStep(s0, s1, m) && SendStep(s1, s2, n);
    Extend(env, run, s1);
    Extend(env, run + [s1], s2);
    run := run + [s1] + [s2];
  }

  lemma SpeltTwice(x: string, y: string, m: nat, n: nat)
    requires m + 1 < |x| && m + 1 < |y| && forall i | 0 <= i < m :: x[i] == y[i]
    requires n + 1 < |x| && n + 1 < |y| && forall i | 0 <= i < n :: x[i] == y[i]
    requires x[m] == '/' && x[m + 1] == 'D' && y[m + 1] == 'P'
    ensures !(x[n] == '/' && x[n + 1] == 'P' && y[n + 1] == 'D')
  {
  }

  /** Two requests under different prefixes do not both write over each other. */
  lemma KeysCrossOnce(p: string, hash: string, root: string, key: string,
                      q: string, hash': string, root': string, key': string)
    requires CasKey(p, hash) == MarkerKey(q, root', key')
    ensures MarkerKey(p, root, key) != CasKey(q, hash')
  {
    var x, y := CasKey(p, hash), MarkerKey(p, root, key);
    if y == CasKey(q, hash') {
      assert forall i | 0 <= i < |p| :: x[i] == p[i] && y[i] == p[i];
      assert forall i | 0 <= i < |q| :: x[i] == q[i] && y[i] == q[i];
      SpeltTwice(x, y, |p|, |q|);
    }
  }

  /** If a marker is where an object goes, serving one request and then the other is not safe. */
  lemma OverlapUnsafe(env: Env, m: Message, n: Message) returns (run: seq<State>)
    requires WellFormedRequest(m.body) && Served(env, n) && MarkerAt(env, m.body) == ObjectOf(env, n.body)
    ensures Run(env, run) && run[0].store == map[] && Last(run).sent == {m, n} && !Safe(env, Last(run))
  {
    hide CasKey, MarkerKey, OutcomeOf, Init, Next;
    var p, q, hash := Prefix(env, n.body), Prefix(env, m.body), env.h(OutcomeOf(env, n.body).content);
    KeysDisjoint(q, hash, m.body.rootId, m.body.pathKey);
    KeysDisjoint(p, hash, n.body.rootId, n.body.pathKey);
    if Served(env, m) {
      KeysCrossOnce(p, hash, n.body.rootId, n.body.pathKey,
                    q, env.h(OutcomeOf(env, m.body).content), m.body.rootId, m.body.pathKey);
    }
    run := SendBoth(env, m, n);
    run := ServeAlone(env, run, m);
    run := ServeAlone(env, run, n);
    assert Last(run).store[MarkerAt(env, n.body)] == MarkerFor(env, n.body);
    assert !Held(env, Last(run).store, Bucket(env, n.body), p, hash);
  }

  /** If a served request shares its marker with a request under another prefix, serving it is not safe. */
  lemma SharedUnsafe(env: Env, m: Message, n: Message) returns (run: seq<State>)
    requires HashesPlain(env) && WellFormedRequest(m.body) && Served(env, n)
    requires MarkerAt(env, m.body) == MarkerAt(env, n.body) && Prefix(env, m.body) != Prefix(env, n.body)
    ensures Run(env, run) && run[0].store == map[] && Last(run).sent == {m, n} && !Safe(env, Last(run))
  {
    hide CasKey, MarkerKey, OutcomeOf, Init, Next;
    var hash := env.h(OutcomeOf(env, n.body).content);
    run := SendBoth(env, m, n);
    run := ServeAlone(env, run, n);
    KeysDisjoint(Prefix(env, m.body), hash, m.body.rootId, m.body.pathKey);
    CasKeyInjective(Prefix(env, m.body), hash, Prefix(env, n.body), hash);
    assert !Held(env, Last(run).store, Bucket(env, m.body), Prefix(env, m.body), hash);
  }

  /** Whatever the agents do with these requests, from a store in order for them, they are safe. */
  ghost predicate SafeAlways(env: Env, requests: set<Message>) {
    forall run: seq<State> | Run(env, run) && Last(run).sent <= requests
      && SoundStore(env, run[0].store, Last(run).sent) :: Safe(env, Last(run))
  }

  /** The agents are safe with these requests exactly when no marker is where an object goes, and requests that share a
      marker, one of them served, use one prefix. */
  lemma SafetyExactly(env: Env, requests: set<Message>)
    requires HashesPlain(env)
    ensures SafeAlways(env, requests) <==> MarkersApart(env, requests) && PrefixesAgree(env, requests)
  {
    hide Init, Next, Safe, MarkerAt, ObjectAt, OutcomeOf, HashesPlain;
    if MarkersApart(env, requests) && PrefixesAgree(env, requests) {
      forall run: seq<State> | Run(env, run) && Last(run).sent <= requests
        && SoundStore(env, run[0].store, Last(run).sent)
        ensures Safe(env, Last(run))
      {
        AgentSafety(env, run, |run| - 1);
      }
    }
    if SafeAlways(env, requests) {
      forall m, n | m in requests && n in requests && WellFormedRequest(m.body) && Served(env, n)
        ensures MarkerAt(env, m.body) != ObjectOf(env, n.body)
      {
        if MarkerAt(env, m.body) == ObjectOf(env, n.body) { var run := OverlapUnsafe(env, m, n); }
      }
      forall m, n | m in requests && n in requests && WellFormedRequest(m.body) && Served(env, n)
        && MarkerAt(env, m.body) == MarkerAt(env, n.body)
        ensures Prefix(env, m.body) == Prefix(env, n.body)
      {
        if Prefix(env, m.body) != Prefix(env, n.body) { var run := SharedUnsafe(env, m, n); }
      }
    }
  }

  /** So a request whose root id ends in "/Data" is not safe beside a request under the prefix its marker spells, for
      content with the same hash as its path key. */
  lemma CollisionUnsafe(env: Env, requests: set<Message>, m: Message, n: Message, prefix: string, rootId: string)
    requires HashesPlain(env) && m in requests && n in requests
    requires WellFormedRequest(m.body) && Prefix(env, m.body) == prefix && m.body.rootId == rootId + "/Data"
    requires Served(env, n) && Prefix(env, n.body) == prefix + "/PendingUploads/" + rootId
    requires Bucket(env, m.body) == Bucket(env, n.body)
    requires env.h(OutcomeOf(env, n.body).content) == m.body.pathKey
    ensures !SafeAlways(env, requests)
  {
    hide CasKey, MarkerKey, OutcomeOf;
    SafetyExactly(env, requests);
    KeysCollideAcrossPrefixes(prefix, rootId, m.body.pathKey);
    assert MarkerAt(env, m.body) == ObjectOf(env, n.body);
  }

  // ---------------------------------------------------------------- markers tell the truth, and exactly when

  /** Requests with the same marker ask for the same thing. */
  ghost predicate Agreeing(env: Env, sent: set<Message>) {
    forall m, n | m in sent && n in sent && WellFormedRequest(m.body) && WellFormedRequest(n.body)
      && MarkerAt(env, m.body) == MarkerAt(env, n.body) ::
      SummaryOf(MarkerFor(env, m.body)) == SummaryOf(MarkerFor(env, n.body))
  }

  /** Every marker of a request that was not there at the start says what is true of the request's file. */
  ghost predicate Truthful(env: Env, initially: map<Location, Object>, s: State) {
    forall m | m in s.sent && WellFormedRequest(m.body) && MarkerAt(env, m.body) in s.store
      && MarkerAt(env, m.body) !in initially ::
      SummaryOf(s.store[MarkerAt(env, m.body)]) == SummaryOf(MarkerFor(env, m.body))
  }

  /** In every run, whichever agent wrote a marker, it has the status, hash and size the request's file calls for. */
  lemma MarkerTruth(env: Env, run: seq<State>, k: nat)
    requires Run(env, run) && k < |run| && MarkersApart(env, run[k].sent) && Agreeing(env, run[k].sent)
    ensures Truthful(env, run[0].store, run[k])
  {
    RunInv(env, run, k);
    hide Init, Next, MarkerAt, ObjectOf, MarkerFor, OutcomeOf;
    var s := run[k];
    forall m | m in s.sent && WellFormedRequest(m.body) && MarkerAt(env, m.body) in s.store
      && MarkerAt(env, m.body) !in run[0].store
      ensures SummaryOf(s.store[MarkerAt(env, m.body)]) == SummaryOf(MarkerFor(env, m.body))
    {
      assert Explained(env, s, MarkerAt(env, m.body));
      if n :| ObjectFrom(env, s, MarkerAt(env, m.body), n) {
        assert false;
      } else {
        var n :| MarkerFrom(env, s, MarkerAt(env, m.body), n);
      }
    }
  }

  /** And once there, a marker never changes its status, hash or size. */
  lemma MarkerStability(env: Env, run: seq<State>, j: nat, k: nat, m: Message)
    requires Run(env, run) && j <= k < |run| && MarkersApart(env, run[k].sent) && Agreeing(env, run[k].sent)
    requires m in run[j].sent && WellFormedRequest(m.body) && MarkerAt(env, m.body) in run[j].store
    ensures MarkerAt(env, m.body) in run[k].store
    ensures SummaryOf(run[k].store[MarkerAt(env, m.body)]) == SummaryOf(run[j].store[MarkerAt(env, m.body)])
  {
    RunGrows(env, run, j, k);
    RunInv(env, run, j);
    RunInv(env, run, k);
    MarkerTruth(env, run, j);
    MarkerTruth(env, run, k);
  }

  /** If requests that share a marker, or a marker and an object, want different things there, serving one of them
      leaves there what is wrong for the other. */
  lemma ServedUntruthful(env: Env, m: Message, n: Message) returns (run: seq<State>)
    requires WellFormedRequest(m.body) && WellFormedRequest(n.body)
    requires || (Served(env, n) && MarkerAt(env, m.body) == ObjectOf(env, n.body))
             || (MarkerAt(env, m.body) == MarkerAt(env, n.body)
                 && SummaryOf(MarkerFor(env, m.body)) != SummaryOf(MarkerFor(env, n.body)))
    ensures Run(env, run) && Last(run).sent == {m, n} && !Truthful(env, run[0].store, Last(run))
  {
    hide CasKey, MarkerKey, OutcomeOf, Init, Next;
    if Served(env, n) {
      var hash := env.h(OutcomeOf(env, n.body).content);
      KeysDisjoint(Prefix(env, n.body), hash, n.body.rootId, n.body.pathKey);
    }
    run := SendBoth(env, m, n);
    run := ServeAlone(env, run, n);
  }

  ghost predicate TruthfulAlways(env: Env, requests: set<Message>) {
    forall run: seq<State> | Run(env, run) && Last(run).sent <= requests :: Truthful(env, run[0].store, Last(run))
  }

  /** Markers tell the truth in every run with these requests exactly when no marker is where an object goes and
      requests that share a marker ask for the same thing. */
  lemma TruthExactly(env: Env, requests: set<Message>)
    ensures TruthfulAlways(env, requests) <==> MarkersApart(env, requests) && Agreeing(env, requests)
  {
    hide Init, Next, Truthful, MarkerAt, ObjectAt, OutcomeOf, MarkerFor;
    if MarkersApart(env, requests) && Agreeing(env, requests) {
      forall run: seq<State> | Run(env, run) && Last(run).sent <= requests
        ensures Truthful(env, run[0].store, Last(run))
      {
        MarkerTruth(env, run, |run| - 1);
      }
    }
    if TruthfulAlways(env, requests) {
      forall m, n | m in requests && n in requests && WellFormedRequest(m.body) && Served(env, n)
        ensures MarkerAt(env, m.body) != ObjectOf(env, n.body)
      {
        if MarkerAt(env, m.body) == ObjectOf(env, n.body) { var run := ServedUntruthful(env, m, n); }
      }
      forall m, n | m in requests && n in requests && WellFormedRequest(m.body) && WellFormedRequest(n.body)
        && MarkerAt(env, m.body) == MarkerAt(env, n.body)
        ensures SummaryOf(MarkerFor(env, m.body)) == SummaryOf(MarkerFor(env, n.body))
      {
        if SummaryOf(MarkerFor(env, m.body)) != SummaryOf(MarkerFor(env, n.body)) {
          var run := ServedUntruthful(env, m, n);
        }
      }
    }
  }

  /** A root id and a path key stand for one file, and path keys are hex digests. */
  ghost predicate KeysNameFiles(sent: set<Message>) {
    && (forall m | m in sent && m.body.Request? :: '/' !in m.body.pathKey)
    && (forall m, n | m in sent && n in sent && m.body.Request? && n.body.Request?
          && m.body.rootId == n.body.rootId && m.body.pathKey == n.body.pathKey ::
          m.body.sourceRootPath == n.body.sourceRootPath && m.body.relativePath == n.body.relativePath)
  }

  /** So it suffices that all requests use one prefix, and root ids and path keys name files. */
  lemma NamesSuffice(env: Env, sent: set<Message>, prefix: string)
    requires KeysNameFiles(sent)
    requires forall m | m in sent && WellFormedRequest(m.body) :: Prefix(env, m.body) == prefix
    ensures MarkersApart(env, sent) && Agreeing(env, sent)
  {
    hide MarkerKey, Serve;
    OnePrefixSuffices(env, sent, prefix);
    forall m, n | m in sent && n in sent && WellFormedRequest(m.body) && WellFormedRequest(n.body)
      && MarkerAt(env, m.body) == MarkerAt(env, n.body)
      ensures SummaryOf(MarkerFor(env, m.body)) == SummaryOf(MarkerFor(env, n.body))
    {
      MarkerKeyInjective(prefix, m.body.rootId, m.body.pathKey, n.body.rootId, n.body.pathKey);
    }
  }
}
