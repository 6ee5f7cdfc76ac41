/** cachedTypeFields under concurrency: any number of goroutines, each taking the steps of the
    function one at a time, in any order the read-write lock permits. */
module FieldCache {
  import opened Outcomes
  import opened FieldOrder

  type Fields = seq<Field>

  type ThreadId = nat

  /** Where a call stands. `None` is a nil slice. */
  datatype Pc =
    | Start                       // before RLock
    | Reading                     // holds the read lock
    | HasRead(entry: Option<Fields>)  // holds the read lock, has read the map
    | Checking(entry: Option<Fields>) // released the read lock
    | Computed(f: Fields)         // before Lock
    | Writing(f: Fields)          // holds the write lock
    | Written(f: Fields)          // holds the write lock, has written the map
    | Returned(f: Fields)

  datatype Call = Call(typ: TypeId, pc: Pc)

  /** `cache` is None while the map is nil. */
  datatype State = State(
    calls: map<ThreadId, Call>, cache: Option<map<TypeId, Fields>>, readers: set<ThreadId>, writer: Option<ThreadId>)

  /** What a caller of typeFields sees; cachedTypeFields turns nil into an empty slice. */
  function Filled(typeFields: TypeId -> Option<Fields>, t: TypeId): Fields {
    match typeFields(t)
    case None => []
    case Some(f) => f
  }

  function At(s: State, id: ThreadId, pc: Pc): State
    requires id in s.calls
  {
    s.(calls := s.calls[id := s.calls[id].(pc := pc)])
  }

  function Entry(s: State, t: TypeId): Option<Fields> {
    if s.cache.Some? && t in s.cache.value then Some(s.cache.value[t]) else None
  }

  /** A new call begins. */
  ghost predicate Begin(s: State, s': State, id: ThreadId, t: TypeId) {
    id !in s.calls && s' == s.(calls := s.calls[id := Call(t, Start)])
  }

  /** One step of call `id`. */
  ghost predicate Step(typeFields: TypeId -> Option<Fields>, s: State, s': State, id: ThreadId) {
    id in s.calls &&
    var call := s.calls[id];
    match call.pc
    case Start => s.writer.None? && s' == At(s, id, Reading).(readers := s.readers + {id})
    case Reading => s' == At(s, id, HasRead(Entry(s, call.typ)))
    case HasRead(f) => s' == At(s, id, Checking(f)).(readers := s.readers - {id})
    case Checking(f) => s' == At(s, id, if f.Some? then Returned(f.value) else Computed(Filled(typeFields, call.typ)))
    case Computed(f) => s.writer.None? && s.readers == {} && s' == At(s, id, Writing(f)).(writer := Some(id))
    case Writing(f) =>
      var m := if s.cache.None? then map[] else s.cache.value;
      s' == At(s, id, Written(f)).(cache := Some(m[call.typ := f]))
    case Written(f) => s' == At(s, id, Returned(f)).(writer := None)
    case Returned(_) => false
  }

  ghost predicate Next(typeFields: TypeId -> Option<Fields>, s: State, s': State) {
    || (exists id, t :: Begin(s, s', id, t))
    || (exists id :: Step(typeFields, s, s', id))
  }

  ghost predicate Init(s: State) {
    s == State(map[], None, {}, None)
  }

  ghost predicate IsRun(typeFields: TypeId -> Option<Fields>, run: seq<State>) {
    && run != [] && Init(run[0])
    && forall i :: 0 <= i < |run| - 1 ==> Next(typeFields, run[i], run[i + 1])
  }

  predicate HoldsRead(pc: Pc) {
    pc.Reading? || pc.HasRead?
  }

  predicate HoldsWrite(pc: Pc) {
    pc.Writing? || pc.Written?
  }

  /** What a call has in hand is right for its own type. */
  ghost predicate CallOk(typeFields: TypeId -> Option<Fields>, call: Call) {
    match call.pc
    case Start => true
    case Reading => true
    case HasRead(f) => f.Some? ==> f.value == Filled(typeFields, call.typ)
    case Checking(f) => f.Some? ==> f.value == Filled(typeFields, call.typ)
    case Computed(f) => f == Filled(typeFields, call.typ)
    case Writing(f) => f == Filled(typeFields, call.typ)
    case Written(f) => f == Filled(typeFields, call.typ)
    case Returned(f) => f == Filled(typeFields, call.typ)
  }

  ghost predicate CacheOk(typeFields: TypeId -> Option<Fields>, s: State) {
    s.cache.Some? ==> forall t :: t in s.cache.value ==> s.cache.value[t] == Filled(typeFields, t)
  }

  /** The lock's bookkeeping is that of the calls, and a writer is alone. */
  ghost predicate LockOk(s: State) {
    && (forall id :: id in s.readers <==> id in s.calls && HoldsRead(s.calls[id].pc))
    && (forall id :: id in s.calls && HoldsWrite(s.calls[id].pc) <==> s.writer == Some(id))
    && (s.writer.Some? ==> s.readers == {})
  }

  ghost predicate Inv(typeFields: TypeId -> Option<Fields>, s: State) {
    && LockOk(s) && CacheOk(typeFields, s)
    && forall id :: id in s.calls ==> CallOk(typeFields, s.calls[id])
  }

  lemma StepKeepsInv(typeFields: TypeId -> Option<Fields>, s: State, s': State, id: ThreadId)
    requires Inv(typeFields, s) && Step(typeFields, s, s', id)
    ensures Inv(typeFields, s')
  {
    assert CallOk(typeFields, s.calls[id]);
    forall other | other in s'.calls && other != id
      ensures s'.calls[other] == s.calls[other]
    {
    }
    match s.calls[id].pc
    case Start => assert forall x :: x in s'.readers <==> x in s.readers || x == id;
    case _ =>
  }

  /** In every interleaving, every cache entry equals typeFields of its key and every call that
      returned got typeFields of its own type; no call reads or writes the map while another
      writes it. */
  lemma {:induction false} RunsAreCorrect(typeFields: TypeId -> Option<Fields>, run: seq<State>, i: nat)
    requires IsRun(typeFields, run) && i < |run|
    ensures Inv(typeFields, run[i])
  {
    if i > 0 {
      RunsAreCorrect(typeFields, run, i - 1);
      var s, s' := run[i - 1], run[i];
      assert Next(typeFields, run[i - 1], run[i - 1 + 1]);
      if exists id :: Step(typeFields, s, s', id) {
        var id :| Step(typeFields, s, s', id);
        StepKeepsInv(typeFields, s, s', id);
      }
    }
  }

  lemma ReturnsOwnFields(typeFields: TypeId -> Option<Fields>, run: seq<State>, i: nat, id: ThreadId)
    requires IsRun(typeFields, run) && i < |run| && id in run[i].calls && run[i].calls[id].pc.Returned?
    ensures run[i].calls[id].pc.f == Filled(typeFields, run[i].calls[id].typ)
  {
    RunsAreCorrect(typeFields, run, i);
  }

  /** No data race on the map. */
  lemma WritersAreAlone(typeFields: TypeId -> Option<Fields>, run: seq<State>, i: nat, a: ThreadId, b: ThreadId)
    requires IsRun(typeFields, run) && i < |run| && a != b && a in run[i].calls && b in run[i].calls
    requires run[i].calls[a].pc.Writing?
    ensures !HoldsRead(run[i].calls[b].pc) && !HoldsWrite(run[i].calls[b].pc)
  {
    RunsAreCorrect(typeFields, run, i);
    assert b !in run[i].readers;
  }
}
