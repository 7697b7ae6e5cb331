/** Deletions against asynchronous admissions: searches, inserts, removes and the background pool, as a
    step system. A step is one access to a shard, one locked block, or one backend call. Client threads
    run one operation at a time; shards are the sets of tags a search can currently find in them. */
module Tombstones {
  import opened Base

  const TAG_MODULUS: nat := 0x1_0000_0000
  const MAX_TAG: nat := 0xFFFF_FFFF

  /** The tag under which an id is stored; 32-bit arithmetic. */
  function TagOf(id: nat): nat {
    (id + 1) % TAG_MODULUS
  }

  datatype Task = Task(shard: nat, ids: seq<nat>)

  datatype Client =
    | Idle
    // insert(id)
    | InsertBackend(id: nat)                 // tombstone erased
    | InsertAdmit(id: nat)                   // backend told
    // remove(id): overtaken records that an insert of the id has begun since the tombstone was set
    | RemoveTombstone(id: nat)
    | RemoveShard(id: nat, next: nat, overtaken: bool)
    | RemoveBackend(id: nat, overtaken: bool)
    // search(K): `gone` records the ids whose removal had finished when the search began and that no insert
    // has brought back since; `found` the tags met in the shards so far
    | Collect(K: nat, gone: set<nat>, found: set<nat>)
    | Check(K: nat, gone: set<nat>, found: set<nat>, list: seq<nat>, checked: nat)
    | Hit(gone: set<nat>, list: seq<nat>)
    | Miss(gone: set<nat>, ids: seq<nat>)

  /** `removed`, a record, holds the ids whose latest remove has finished with no insert begun since. */
  datatype State = State(deleted: set<nat>, shards: seq<set<nat>>, queue: seq<Task>, workers: seq<Option<Task>>,
                         backend: set<nat>, clients: seq<Client>, removed: set<nat>)

  datatype Step =
    | BeginInsert(c: nat, id: nat)
    | BeginRemove(c: nat, id: nat)
    | BeginSearch(c: nat, K: nat)
    | Visit(c: nat, shard: nat)              // search_with_tags on one shard
    | Propose(c: nat, list: seq<nat>)        // a per-shard or merged list goes to isHit
    | Advance(c: nat, near: bool)            // the client's next step; near: the distance test passes
    | GiveUp(c: nat, ids: seq<nat>)          // the backend answers a miss
    | Admit(c: nat, shard: nat, free: bool)  // insert: to the chosen shard, if it has a slot
    | Queue(c: nat, shard: nat)              // handle_backend_miss filters and submits
    | Done(c: nat)
    | Take(w: nat)
    | InsertOne(w: nat, free: bool)          // the next id of a task enters its shard
    | Replace(shard: nat)                    // perform_eviction

  function Init(shards: nat, workers: nat, clients: nat, backend: set<nat>): State {
    State({}, seq(shards, _ => {}), [], seq(workers, _ => None), backend, seq(clients, _ => Idle), {})
  }

  predicate Enabled(s: State, step: Step) {
    match step
    case BeginInsert(c, id) => c < |s.clients| && s.clients[c].Idle? && id < TAG_MODULUS
    case BeginRemove(c, id) => c < |s.clients| && s.clients[c].Idle? && id < TAG_MODULUS
    case BeginSearch(c, _) => c < |s.clients| && s.clients[c].Idle?
    case Visit(c, k) => c < |s.clients| && s.clients[c].Collect? && k < |s.shards|
    case Propose(c, list) =>
      c < |s.clients| && s.clients[c].Collect? && forall j | 0 <= j < |list| :: list[j] in s.clients[c].found
    case Advance(c, _) =>
      c < |s.clients| && (s.clients[c].InsertBackend? || s.clients[c].RemoveTombstone? || s.clients[c].RemoveShard?
                          || s.clients[c].RemoveBackend? || s.clients[c].Check?)
    case GiveUp(c, _) => c < |s.clients| && s.clients[c].Collect?
    case Admit(c, k, _) => c < |s.clients| && s.clients[c].InsertAdmit? && k < |s.shards|
    case Queue(c, k) => c < |s.clients| && s.clients[c].Miss? && k < |s.shards|
    case Done(c) => c < |s.clients| && s.clients[c].Hit?
    case Take(w) => w < |s.workers| && s.workers[w].None? && s.queue != []
    case InsertOne(w, _) => w < |s.workers| && s.workers[w].Some?
    case Replace(k) => k < |s.shards|
  }

  function Do(s: State, step: Step): State
    requires Enabled(s, step)
  {
    match step
    case BeginInsert(c, id) =>
      s.(deleted := s.deleted - {id}, removed := s.removed - {id},
         clients := seq(|s.clients|, k requires 0 <= k < |s.clients| =>
           if k == c then InsertBackend(id) else Reinserted(s.clients[k], id)))
    case BeginRemove(c, id) => s.(clients := s.clients[c := RemoveTombstone(id)])
    case BeginSearch(c, K) => s.(clients := s.clients[c := Collect(K, s.removed, {})])
    case Visit(c, k) =>
      var q := s.clients[c];
      s.(clients := s.clients[c := Collect(q.K, q.gone, q.found + s.shards[k])])
    case Propose(c, list) =>
      var q := s.clients[c];
      s.(clients := s.clients[c := Check(q.K, q.gone, q.found, list, 0)])
    case Advance(c, near) => DoAdvance(s, c, near)
    case GiveUp(c, ids) => s.(clients := s.clients[c := Miss(s.clients[c].gone, ids)])
    case Admit(c, k, free) =>
      var id := s.clients[c].id;
      s.(clients := s.clients[c := Idle],
         shards := if id !in s.deleted && free then s.shards[k := s.shards[k] + {TagOf(id)}] else s.shards)
    case Queue(c, k) =>
      s.(queue := s.queue + [Task(k, NotDeleted(s.clients[c].ids, s.deleted))], clients := s.clients[c := Idle])
    case Done(c) => s.(clients := s.clients[c := Idle])
    case Take(w) => s.(workers := s.workers[w := Some(s.queue[0])], queue := s.queue[1..])
    case InsertOne(w, free) =>
      var task := s.workers[w].value;
      if task.ids == [] then s.(workers := s.workers[w := None])
      else s.(workers := s.workers[w := Some(task.(ids := task.ids[1..]))],
              shards := if free && task.shard < |s.shards|
                        then s.shards[task.shard := s.shards[task.shard] + {TagOf(task.ids[0])}] else s.shards)
    case Replace(k) => s.(shards := s.shards[k := {}])
  }

  /** What the beginning of insert(id) means to the records of another client. */
  function Reinserted(q: Client, id: nat): Client {
    match q
    case RemoveShard(i, next, overtaken) => RemoveShard(i, next, overtaken || i == id)
    case RemoveBackend(i, overtaken) => RemoveBackend(i, overtaken || i == id)
    case Collect(K, gone, found) => Collect(K, gone - {id}, found)
    case Check(K, gone, found, list, checked) => Check(K, gone - {id}, found, list, checked)
    case Hit(gone, list) => Hit(gone - {id}, list)
    case Miss(gone, ids) => Miss(gone - {id}, ids)
    case _ => q
  }

  /** tags_to_insert. 0xFFFFFFFF marks a missing result. */
  function NotDeleted(ids: seq<nat>, deleted: set<nat>): (r: seq<nat>)
    ensures forall id | id in r :: id in ids && id !in deleted && id != MAX_TAG
  {
    if ids == [] then []
    else
      var rest := NotDeleted(ids[1..], deleted);
      if ids[0] != MAX_TAG && ids[0] !in deleted then [ids[0]] + rest else rest
  }

  /** Nothing else is dropped, and the order is kept. */
  lemma {:induction false} OthersAreKept(ids: seq<nat>, deleted: set<nat>, id: nat)
    ensures multiset(NotDeleted(ids, deleted))[id] == if id == MAX_TAG || id in deleted then 0 else multiset(ids)[id]
  {
    if ids != [] {
      OthersAreKept(ids[1..], deleted, id);
      assert ids == [ids[0]] + ids[1..];
      assert multiset(ids) == multiset{ids[0]} + multiset(ids[1..]);
    }
  }

  lemma {:induction false} KeptInOrder(a: seq<nat>, b: seq<nat>, deleted: set<nat>)
    ensures NotDeleted(a + b, deleted) == NotDeleted(a, deleted) + NotDeleted(b, deleted)
  {
    if a == [] {
      assert a + b == b;
    } else {
      KeptInOrder(a[1..], b, deleted);
      assert (a + b)[1..] == a[1..] + b;
    }
  }

  /** One turn of the loop in has_k_live_results. */
  predicate Passes(tag: nat, deleted: set<nat>) {
    tag != 0 && tag != MAX_TAG && tag - 1 !in deleted
  }

  function DoAdvance(s: State, c: nat, near: bool): State
    requires Enabled(s, Advance(c, near))
  {
    match s.clients[c]
    case InsertBackend(id) => s.(backend := s.backend + {id}, clients := s.clients[c := InsertAdmit(id)])
    case RemoveTombstone(id) => s.(deleted := s.deleted + {id}, clients := s.clients[c := RemoveShard(id, 0, false)])
    case RemoveShard(id, next, overtaken) =>
      if next < |s.shards| then
        s.(shards := s.shards[next := s.shards[next] - {TagOf(id)}],
           clients := s.clients[c := RemoveShard(id, next + 1, overtaken)])
      else s.(clients := s.clients[c := RemoveBackend(id, overtaken)])
    case RemoveBackend(id, overtaken) =>
      s.(backend := s.backend - {id}, removed := if overtaken then s.removed else s.removed + {id},
         clients := s.clients[c := Idle])
    case Check(K, gone, found, list, checked) =>
      if |list| < K then s.(clients := s.clients[c := Collect(K, gone, found)])
      else if checked < K then
        if Passes(list[checked], s.deleted)
        then s.(clients := s.clients[c := Check(K, gone, found, list, checked + 1)])
        else s.(clients := s.clients[c := Collect(K, gone, found)])
      else s.(clients := s.clients[c := if near && K != 0 then Hit(gone, list[..K]) else Collect(K, gone, found)])
  }

  // ---------------------------------------------------------------- runs and invariant

  ghost predicate IsRun(s: State, steps: seq<Step>)
    decreases |steps|
  {
    steps == [] || (Enabled(s, steps[0]) && IsRun(Do(s, steps[0]), steps[1..]))
  }

  ghost function After(s: State, steps: seq<Step>): State
    requires IsRun(s, steps)
    decreases |steps|
  {
    if steps == [] then s else After(Do(s, steps[0]), steps[1..])
  }

  /** Tags 1, ..., n of the list name no id in `gone`. */
  ghost predicate Avoids(list: seq<nat>, n: nat, gone: set<nat>)
    requires n <= |list|
  {
    forall j, id | 0 <= j < n && id in gone :: list[j] != TagOf(id)
  }

  /** Tags 1, ..., n of the list are tags of ids: not the value for none, nor the mark for a missing result. */
  ghost predicate Real(list: seq<nat>, n: nat)
    requires n <= |list|
  {
    forall j | 0 <= j < n :: list[j] != 0 && list[j] != MAX_TAG
  }

  ghost predicate ClientOk(q: Client, deleted: set<nat>) {
    match q
    case RemoveShard(id, _, overtaken) => id < TAG_MODULUS && (!overtaken ==> id in deleted)
    case RemoveBackend(id, overtaken) => id < TAG_MODULUS && (!overtaken ==> id in deleted)
    case RemoveTombstone(id) => id < TAG_MODULUS
    case Collect(_, gone, _) => gone <= deleted
    case Check(K, gone, _, list, checked) => gone <= deleted && checked <= K && (checked > 0 ==> K <= |list|)
      && (checked <= |list| ==> Avoids(list, checked, gone) && Real(list, checked))
    case Hit(gone, list) => gone <= deleted && Avoids(list, |list|, gone) && Real(list, |list|)
    case Miss(gone, _) => gone <= deleted
    case _ => true
  }

  ghost predicate Invariant(s: State) {
    && s.removed <= s.deleted
    && (forall id | id in s.deleted :: id < TAG_MODULUS)
    && forall c: nat | c < |s.clients| :: ClientOk(s.clients[c], s.deleted)
  }

  lemma StepKeepsInvariant(s: State, step: Step)
    requires Invariant(s) && Enabled(s, step)
    ensures Invariant(Do(s, step))
  {
    var t := Do(s, step);
    forall c: nat | c < |t.clients| ensures ClientOk(t.clients[c], t.deleted) {
      assert ClientOk(s.clients[c], s.deleted);
    }
  }

  lemma RunKeepsInvariant(s: State, steps: seq<Step>)
    requires Invariant(s) && IsRun(s, steps)
    ensures Invariant(After(s, steps))
    decreases |steps|
  {
    if steps != [] {
      StepKeepsInvariant(s, steps[0]);
      RunKeepsInvariant(Do(s, steps[0]), steps[1..]);
    }
  }

  // ---------------------------------------------------------------- what a hit can contain

  ghost predicate NoInsertOf(steps: seq<Step>, id: nat) {
    forall k | 0 <= k < |steps| && steps[k].BeginInsert? :: steps[k].id != id
  }

  ghost predicate NoSearchBy(steps: seq<Step>, c: nat) {
    forall k | 0 <= k < |steps| && steps[k].BeginSearch? :: steps[k].c != c
  }

  /** A remove of id under way, with no insert of id begun since its tombstone was set. */
  ghost predicate Removing(q: Client, id: nat) {
    q == RemoveTombstone(id) || (q.RemoveShard? && q == RemoveShard(id, q.next, false)) || q == RemoveBackend(id, false)
  }

  /** Whatever else happens, such a remove goes on or has finished. */
  lemma RemoveGoesOn(s: State, step: Step, c: nat, id: nat)
    requires Enabled(s, step) && c < |s.clients| && Removing(s.clients[c], id)
    requires step.BeginInsert? ==> step.id != id
    ensures var t := Do(s, step);
      |t.clients| == |s.clients| && (Removing(t.clients[c], id) || (t.clients[c].Idle? && id in t.removed))
  {}

  /** A search begun while id counts as removed keeps it among the ids it must not return. */
  ghost predicate Guarded(q: Client, id: nat) {
    match q
    case Collect(_, gone, _) => id in gone
    case Check(_, gone, _, _, _) => id in gone
    case Hit(gone, _) => id in gone
    case Miss(gone, _) => id in gone
    case _ => true
  }

  lemma GuardStays(s: State, steps: seq<Step>, c: nat, id: nat)
    requires IsRun(s, steps) && c < |s.clients| && Guarded(s.clients[c], id)
    requires NoInsertOf(steps, id) && NoSearchBy(steps, c)
    ensures var t := After(s, steps); |t.clients| == |s.clients| && Guarded(t.clients[c], id)
    decreases |steps|
  {
    if steps != [] {
      var rest := steps[1..];
      assert forall k | 0 <= k < |rest| :: rest[k] == steps[k + 1];
      assert steps[0].BeginInsert? ==> steps[0].id != id;
      assert steps[0].BeginSearch? ==> steps[0].c != c;
      GuardStays(Do(s, steps[0]), rest, c, id);
    }
  }

  /** A search that begins after the remove of id has finished never returns id as a hit, unless an insert of
      id has begun in between, whatever the shards contain by then. */
  lemma NoStaleHit(s: State, c: nat, K: nat, steps: seq<Step>, id: nat)
    requires Invariant(s) && id in s.removed && Enabled(s, BeginSearch(c, K))
    requires IsRun(Do(s, BeginSearch(c, K)), steps) && NoInsertOf(steps, id) && NoSearchBy(steps, c)
    requires var t := After(Do(s, BeginSearch(c, K)), steps); c < |t.clients| && t.clients[c].Hit?
    ensures TagOf(id) !in After(Do(s, BeginSearch(c, K)), steps).clients[c].list
  {
    var s1 := Do(s, BeginSearch(c, K));
    StepKeepsInvariant(s, BeginSearch(c, K));
    RunKeepsInvariant(s1, steps);
    GuardStays(s1, steps, c, id);
    var t := After(s1, steps);
    assert ClientOk(t.clients[c], t.deleted);
  }

  // ---------------------------------------------------------------- what inserts and removes achieve

  lemma Prepend(s: State, step: Step, s': State, rest: seq<Step>, end: State) returns (r: seq<Step>)
    requires Enabled(s, step) && Do(s, step) == s' && IsRun(s', rest) && After(s', rest) == end
    ensures r == [step] + rest && IsRun(s, r) && After(s, r) == end
  {
    r := [step] + rest;
    assert r[1..] == rest;
  }

  /** An insert that gets a slot leaves the id without a tombstone, in the backend and in the chosen shard. */
  lemma InsertArrives(s: State, c: nat, id: nat, k: nat)
    requires c < |s.clients| && s.clients[c].Idle? && id < TAG_MODULUS && k < |s.shards|
    ensures var steps := [BeginInsert(c, id), Advance(c, false), Admit(c, k, true)];
      IsRun(s, steps) && var t := After(s, steps);
        && |t.clients| == |s.clients| && t.clients[c].Idle? && |t.shards| == |s.shards| && TagOf(id) in t.shards[k]
        && id !in t.deleted && id in t.backend && id !in t.removed
  {
    var s1 := Do(s, BeginInsert(c, id));
    var s2 := Do(s1, Advance(c, false));
    var s3 := Do(s2, Admit(c, k, true));
    assert IsRun(s3, []) && After(s3, []) == s3;
    var r := Prepend(s2, Admit(c, k, true), s3, [], s3);
    r := Prepend(s1, Advance(c, false), s2, r, s3);
    r := Prepend(s, BeginInsert(c, id), s1, r, s3);
    assert r == [BeginInsert(c, id), Advance(c, false), Admit(c, k, true)];
  }

  /** A proposed list of one live tag that is near enough is a hit. */
  lemma CheckPasses(s: State, c: nat, gone: set<nat>, found: set<nat>, tag: nat) returns (steps: seq<Step>)
    requires c < |s.clients| && s.clients[c] == Check(1, gone, found, [tag], 0) && Passes(tag, s.deleted)
    ensures IsRun(s, steps) && After(s, steps) == s.(clients := s.clients[c := Hit(gone, [tag])])
  {
    var s1 := Do(s, Advance(c, true));
    var s2 := Do(s1, Advance(c, true));
    assert [tag][..1] == [tag];
    assert s2 == s.(clients := s.clients[c := Hit(gone, [tag])]);
    steps := Prepend(s1, Advance(c, true), s2, [], s2);
    steps := Prepend(s, Advance(c, true), s1, steps, s2);
  }

  /** A search that meets the id in the shard can return it. */
  lemma SearchFinds(s: State, c: nat, id: nat, k: nat) returns (steps: seq<Step>)
    requires c < |s.clients| && s.clients[c].Idle? && id !in s.deleted && k < |s.shards| && TagOf(id) in s.shards[k]
    requires id < TAG_MODULUS && TagOf(id) != 0 && TagOf(id) != MAX_TAG
    ensures IsRun(s, steps) && var t := After(s, steps);
      |t.clients| == |s.clients| && t.clients[c].Hit? && t.clients[c].list == [TagOf(id)]
  {
    var list := [TagOf(id)];
    var s1 := Do(s, BeginSearch(c, 1));
    var s2 := Do(s1, Visit(c, k));
    var s3 := Do(s2, Propose(c, list));
    var found := s2.clients[c].found;
    steps := CheckPasses(s3, c, s.removed, found, TagOf(id));
    var end := After(s3, steps);
    steps := Prepend(s2, Propose(c, list), s3, steps, end);
    steps := Prepend(s1, Visit(c, k), s2, steps, end);
    steps := Prepend(s, BeginSearch(c, 1), s1, steps, end);
  }

  lemma {:induction false} RunsJoin(s: State, a: seq<Step>, b: seq<Step>)
    requires IsRun(s, a) && IsRun(After(s, a), b)
    ensures IsRun(s, a + b) && After(s, a + b) == After(After(s, a), b)
    decreases |a|
  {
    if a == [] {
      assert a + b == b;
    } else {
      RunsJoin(Do(s, a[0]), a[1..], b);
      assert (a + b)[0] == a[0] && (a + b)[1..] == a[1..] + b;
    }
  }

  /** A run after which client c is shown the id alone as a hit. */
  ghost predicate Shows(s: State, steps: seq<Step>, c: nat, id: nat) {
    IsRun(s, steps) && var t := After(s, steps);
      c < |t.clients| && t.clients[c].Hit? && t.clients[c].list == [TagOf(id)]
  }

  /** Whatever was deleted before, an id can be inserted and then be returned by a search, exactly if its tag is neither
      of the two reserved values (it is for the last two ids of the 32-bit range). */
  lemma CanBeShownIff(s: State, c: nat, id: nat, k: nat)
    requires Invariant(s) && c < |s.clients| && s.clients[c].Idle? && id < TAG_MODULUS && k < |s.shards|
    ensures (exists steps :: Shows(s, steps, c, id)) <==> id < TAG_MODULUS - 2
  {
    if id < TAG_MODULUS - 2 {
      var insert := [BeginInsert(c, id), Advance(c, false), Admit(c, k, true)];
      InsertArrives(s, c, id, k);
      var search := SearchFinds(After(s, insert), c, id, k);
      RunsJoin(s, insert, search);
      assert Shows(s, insert + search, c, id);
    } else {
      forall steps ensures !Shows(s, steps, c, id) {
        if IsRun(s, steps) && c < |After(s, steps).clients| {
          RunKeepsInvariant(s, steps);
          NotShown(After(s, steps), c, id);
        }
      }
    }
  }

  lemma NotShown(t: State, c: nat, id: nat)
    requires Invariant(t) && c < |t.clients| && TAG_MODULUS - 2 <= id < TAG_MODULUS
    ensures !(t.clients[c].Hit? && t.clients[c].list == [TagOf(id)])
  {
    assert ClientOk(t.clients[c], t.deleted);
    if t.clients[c].Hit? && t.clients[c].list != [] {
      assert t.clients[c].list[0] != 0 && t.clients[c].list[0] != MAX_TAG;
    }
  }

  /** The step puts the tag into some shard, if there is room. */
  predicate Adds(s: State, step: Step, tag: nat)
    requires Enabled(s, step)
  {
    match step
    case Admit(c, _, _) => TagOf(s.clients[c].id) == tag
    case InsertOne(w, _) => s.workers[w].value.ids != [] && TagOf(s.workers[w].value.ids[0]) == tag
    case _ => false
  }

  ghost predicate NeverAdds(s: State, steps: seq<Step>, tag: nat)
    requires IsRun(s, steps)
    decreases |steps|
  {
    steps != [] ==> !Adds(s, steps[0], tag) && NeverAdds(Do(s, steps[0]), steps[1..], tag)
  }

  /** A remove of id has taken its tag out of the shards it has been to. */
  ghost predicate ClearedSoFar(s: State, c: nat, id: nat)
    requires c < |s.clients|
  {
    match s.clients[c]
    case RemoveShard(i, next, _) => i == id ==> forall k | 0 <= k < next && k < |s.shards| :: TagOf(id) !in s.shards[k]
    case RemoveBackend(i, _) => i == id ==> forall k | 0 <= k < |s.shards| :: TagOf(id) !in s.shards[k]
    case _ => true
  }

  lemma StepClears(s: State, step: Step, c: nat, id: nat)
    requires Enabled(s, step) && c < |s.clients| && ClearedSoFar(s, c, id) && !Adds(s, step, TagOf(id))
    ensures |Do(s, step).clients| == |s.clients| && ClearedSoFar(Do(s, step), c, id)
  {}

  /** When a remove turns to the backend, no shard holds its tag, unless the id was admitted to a shard since the remove
      began. */
  lemma RemoveClears(s: State, steps: seq<Step>, c: nat, id: nat)
    requires c < |s.clients| && s.clients[c] == RemoveTombstone(id) && IsRun(s, steps)
    requires NeverAdds(s, steps, TagOf(id))
    ensures |After(s, steps).clients| == |s.clients|
    ensures var t := After(s, steps);
      t.clients[c].RemoveBackend? && t.clients[c].id == id ==>
        forall k | 0 <= k < |t.shards| :: TagOf(id) !in t.shards[k]
  {
    RunClears(s, steps, c, id);
  }

  lemma RunClears(s: State, steps: seq<Step>, c: nat, id: nat)
    requires c < |s.clients| && ClearedSoFar(s, c, id) && IsRun(s, steps) && NeverAdds(s, steps, TagOf(id))
    ensures var t := After(s, steps); |t.clients| == |s.clients| && ClearedSoFar(t, c, id)
    decreases |steps|
  {
    if steps != [] {
      StepClears(s, steps[0], c, id);
      RunClears(Do(s, steps[0]), steps[1..], c, id);
    }
  }

  /** Every state of every run satisfies what NoStaleHit asks for. */
  lemma Reachable(shards: nat, workers: nat, clients: nat, backend: set<nat>, steps: seq<Step>)
    requires IsRun(Init(shards, workers, clients, backend), steps)
    ensures Invariant(After(Init(shards, workers, clients, backend), steps))
  {
    RunKeepsInvariant(Init(shards, workers, clients, backend), steps);
  }

  // ---------------------------------------------------------------- why the check is needed

  /** One shard, one worker, one client. */
  function Scene(deleted: set<nat>, shard: set<nat>, queue: seq<Task>, worker: Option<Task>, backend: set<nat>,
                 client: Client, removed: set<nat>): State {
    State(deleted, [shard], queue, [worker], backend, [client], removed)
  }

  const TASK := Task(0, [5])
  const END := Scene({5}, {6}, [], Some(Task(0, [])), {}, Idle, {5})

  lemma RemoveThenAdmit() returns (r: seq<Step>)
    ensures IsRun(Scene({}, {}, [TASK], None, {5}, Idle, {}), r)
    ensures After(Scene({}, {}, [TASK], None, {5}, Idle, {}), r) == END
  {
    var none: set<nat> := {};
    assert TASK.ids[1..] == [] && [TASK][1..] == [] && TagOf(5) == 6 && none + {6} == {6};
    r := [];
    r := Prepend(Scene({5}, {}, [], Some(TASK), {}, Idle, {5}), InsertOne(0, true), END, r, END);
    r := Prepend(Scene({5}, {}, [TASK], None, {}, Idle, {5}), Take(0),
                 Scene({5}, {}, [], Some(TASK), {}, Idle, {5}), r, END);
    var q := RemoveBackend(5, false);
    r := Prepend(Scene({5}, {}, [TASK], None, {5}, q, {}), Advance(0, false),
                 Scene({5}, {}, [TASK], None, {}, Idle, {5}), r, END);
    r := RemoveFirst(r);
  }

  lemma RemoveFirst(rest: seq<Step>) returns (r: seq<Step>)
    requires IsRun(Scene({5}, {}, [TASK], None, {5}, RemoveBackend(5, false), {}), rest)
    requires After(Scene({5}, {}, [TASK], None, {5}, RemoveBackend(5, false), {}), rest) == END
    ensures IsRun(Scene({}, {}, [TASK], None, {5}, Idle, {}), r)
    ensures After(Scene({}, {}, [TASK], None, {5}, Idle, {}), r) == END
  {
    r := ClearShard(rest);
    r := Prepend(Scene({}, {}, [TASK], None, {5}, RemoveTombstone(5), {}), Advance(0, false),
                 Scene({5}, {}, [TASK], None, {5}, RemoveShard(5, 0, false), {}), r, END);
    r := Prepend(Scene({}, {}, [TASK], None, {5}, Idle, {}), BeginRemove(0, 5),
                 Scene({}, {}, [TASK], None, {5}, RemoveTombstone(5), {}), r, END);
  }

  lemma ClearShard(rest: seq<Step>) returns (r: seq<Step>)
    requires IsRun(Scene({5}, {}, [TASK], None, {5}, RemoveBackend(5, false), {}), rest)
    requires After(Scene({5}, {}, [TASK], None, {5}, RemoveBackend(5, false), {}), rest) == END
    ensures IsRun(Scene({5}, {}, [TASK], None, {5}, RemoveShard(5, 0, false), {}), r)
    ensures After(Scene({5}, {}, [TASK], None, {5}, RemoveShard(5, 0, false), {}), r) == END
  {
    var none: set<nat> := {};
    assert none - {TagOf(5)} == none;
    assert [none][0 := none] == [none];
    r := Prepend(Scene({5}, {}, [TASK], None, {5}, RemoveShard(5, 1, false), {}), Advance(0, false),
                 Scene({5}, {}, [TASK], None, {5}, RemoveBackend(5, false), {}), rest, END);
    r := Prepend(Scene({5}, {}, [TASK], None, {5}, RemoveShard(5, 0, false), {}), Advance(0, false),
                 Scene({5}, {}, [TASK], None, {5}, RemoveShard(5, 1, false), {}), r, END);
  }

  ghost predicate HoldsRemoved(s: State, id: nat, shard: nat) {
    id in s.removed && shard < |s.shards| && TagOf(id) in s.shards[shard]
  }

  /** A removed id can be back in a shard: its admission was queued before the remove and ran after it. */
  lemma StaleAdmissionHappens()
    ensures exists steps :: IsRun(Init(1, 1, 1, {5}), steps) && HoldsRemoved(After(Init(1, 1, 1, {5}), steps), 5, 0)
  {
    var r := RemoveThenAdmit();
    assert NotDeleted([5], {}) == [5] by { assert [5][1..] == []; }
    assert [] + [TASK] == [TASK];
    r := Prepend(Scene({}, {}, [], None, {5}, Miss({}, [5]), {}), Queue(0, 0),
                 Scene({}, {}, [TASK], None, {5}, Idle, {}), r, END);
    r := Prepend(Scene({}, {}, [], None, {5}, Collect(1, {}, {}), {}), GiveUp(0, [5]),
                 Scene({}, {}, [], None, {5}, Miss({}, [5]), {}), r, END);
    r := Prepend(Init(1, 1, 1, {5}), BeginSearch(0, 1), Scene({}, {}, [], None, {5}, Collect(1, {}, {}), {}), r, END);
    assert After(Init(1, 1, 1, {5}), r) == END;
  }
}
