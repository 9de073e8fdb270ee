/**
 Every interleaving of the cache protocol, and what none of them breaks.

 An entry remembers the generation at which its forge read began, and `history` and `latest` record
 every mark that was ever made; the client itself keeps neither. The forge, the clock and the order in
 which waiting tasks resume are open: they are the choice of the next action.
 */
module CacheRuns {
  import opened Options
  import opened CacheKeys
  import opened CacheProtocol

  datatype Entry = Entry(value: string, fetchedAt: nat)

  /**
   A read that found its key clean and waits for the store, one whose forge read is under way, or one
   that has decided about storing and not yet ended.
   */
  datatype Reader =
    | Checked(key: string, seen: nat)
    | Fetching(key: string, readAt: nat)
    | Settled(key: string, readAt: nat)

  /** A background or awaited invalidation and the prefixes it has deleted so far. */
  datatype Task = Task(prefixes: seq<string>, generation: nat, deleted: set<string>)

  datatype State = State(client: Client, store: map<string, Entry>, readers: map<nat, Reader>, tasks: map<nat, Task>,
                         history: set<(string, nat)>, latest: map<string, nat>)

  datatype Action =
    | Check(id: nat, key: string)                      // a cached read finds its key clean
    | Hit(id: nat)                                     // and the store has it
    | Miss(id: nat)                                    // or not, so a forge read begins
    | Fresh(id: nat, key: string)                      // a forge read past the cache begins on a clean key
    | Abandon(id: nat)                                 // the read bypasses the cache after all, or fails
    | Settle(id: nat, value: string, cacheable: bool)  // the forge answers: store it or not
    | Finish(id: nat)                                  // the read ends, however it went
    | Mutate(prefixes: seq<string>)                    // a mutation returned: mark its prefixes
    | Invalidate(task: nat, prefixes: seq<string>)     // mark and start to invalidate
    | Drain(task: nat, prefixes: seq<string>)          // a background round starts
    | DeleteUnder(task: nat, prefix: string)           // one prefix deletion runs in the store
    | Clean(task: nat)                                 // all deletions done: clear the marks
    | Fail(task: nat)                                  // a deletion failed or the task was cancelled
    | Drop(keys: set<string>)                          // expiry, eviction, other deletions

  predicate InFlight(r: Reader) { r.Fetching? || r.Settled? }

  predicate Enabled(s: State, a: Action) {
    match a
    case Check(id, key) => id !in s.readers && !IsDirty(s.client, key)
    case Hit(id) => id in s.readers && s.readers[id].Checked? && s.readers[id].key in s.store
    case Miss(id) => id in s.readers && s.readers[id].Checked?
    case Fresh(id, key) => id !in s.readers && !IsDirty(s.client, key)
    case Abandon(id) => id in s.readers && s.readers[id].Checked?
    case Settle(id, _, _) => id in s.readers && s.readers[id].Fetching?
    case Finish(id) => id in s.readers && InFlight(s.readers[id])
                       && Count(s.client.inFlight, s.readers[id].readAt) > 0
    case Mutate(_) => true
    case Invalidate(t, _) => t !in s.tasks
    case Drain(t, prefixes) => t !in s.tasks && prefixes != [] && DrainTarget(s.client.dirty, prefixes).Some?
    case DeleteUnder(t, p) => t in s.tasks && p in s.tasks[t].prefixes
    case Clean(t) => t in s.tasks && forall p :: p in s.tasks[t].prefixes ==> p in s.tasks[t].deleted
    case Fail(t) => t in s.tasks
    case Drop(_) => true
  }

  ghost function MarkState(s: State, prefixes: seq<string>): State {
    var g := s.client.generation + 1;
    s.(client := Mark(s.client, prefixes),
       history := s.history + (set p | p in prefixes :: (p, g)),
       latest := SetAll(s.latest, prefixes, g))
  }

  ghost function Next(s: State, a: Action): State
    requires Enabled(s, a)
  {
    match a
    case Check(id, key) => s.(readers := s.readers[id := Checked(key, s.client.generation)])
    case Hit(id) => s.(readers := s.readers - {id})
    case Miss(id) =>
      s.(client := BeginRead(s.client), readers := s.readers[id := Fetching(s.readers[id].key, s.client.generation)])
    case Fresh(id, key) =>
      s.(client := BeginRead(s.client), readers := s.readers[id := Fetching(key, s.client.generation)])
    case Abandon(id) => s.(readers := s.readers - {id})
    case Settle(id, value, cacheable) =>
      var r := s.readers[id];
      var kept := if cacheable && MayStore(s.client, r.key, r.readAt) then s.store[r.key := Entry(value, r.readAt)]
                  else s.store;
      s.(store := kept, readers := s.readers[id := Settled(r.key, r.readAt)])
    case Finish(id) => s.(client := EndRead(s.client, s.readers[id].readAt), readers := s.readers - {id})
    case Mutate(prefixes) => MarkState(s, prefixes)
    case Invalidate(t, prefixes) =>
      MarkState(s, prefixes).(tasks := s.tasks[t := Task(prefixes, s.client.generation + 1, {})])
    case Drain(t, prefixes) =>
      s.(tasks := s.tasks[t := Task(prefixes, DrainTarget(s.client.dirty, prefixes).value, {})])
    case DeleteUnder(t, p) =>
      var task := s.tasks[t];
      s.(store := map k | k in s.store && !Deletes(k, p) :: s.store[k],
         tasks := s.tasks[t := task.(deleted := task.deleted + {p})])
    case Clean(t) =>
      var task := s.tasks[t];
      s.(client := s.client.(dirty := ClearMarks(s.client.dirty, task.prefixes, task.generation)),
         tasks := s.tasks - {t})
    case Fail(t) => s.(tasks := s.tasks - {t})
    case Drop(keys) => s.(store := s.store - keys)
  }

  /** A new client over any store, whose entries may carry any generation; 0 is older than every mark to come. */
  ghost predicate Initial(s: State) {
    s.client == FRESH_CLIENT && s.readers == map[] && s.tasks == map[] && s.history == {} && s.latest == map[]
  }

  ghost predicate Reaches(s: State, actions: seq<Action>, t: State)
    decreases |actions|
  {
    if actions == [] then s == t else Enabled(s, actions[0]) && Reaches(Next(s, actions[0]), actions[1..], t)
  }

  ghost predicate Reachable(t: State) {
    exists s, actions :: Initial(s) && Reaches(s, actions, t)
  }

  // ---------------------------------------------------------------- The invariant

  ghost function ReadersAt(readers: map<nat, Reader>, g: nat): set<nat> {
    set id | id in readers && InFlight(readers[id]) && readers[id].readAt == g
  }

  /** The counts are those of the reads in flight. */
  ghost predicate Counted(s: State) {
    forall g :: CountedAt(s.client.inFlight, s.readers, g)
  }

  /** The count kept for one generation is right. */
  ghost predicate CountedAt(counts: map<nat, nat>, readers: map<nat, Reader>, g: nat) {
    Count(counts, g) == |ReadersAt(readers, g)| && (g in counts <==> Count(counts, g) > 0)
  }

  /** No generation on record is ahead of the counter. */
  ghost predicate Ordered(s: State) {
    && (forall id :: id in s.readers ==>
          (if s.readers[id].Checked? then s.readers[id].seen else s.readers[id].readAt) <= s.client.generation)
    && (forall g :: g in s.client.inFlight ==> g <= s.client.generation)
    && (forall t :: t in s.tasks ==> s.tasks[t].generation <= s.client.generation)
    && (forall p :: p in s.latest ==> s.latest[p] <= s.client.generation && (p, s.latest[p]) in s.history)
    && (forall p, m :: (p, m) in s.history ==> p in s.latest && m <= s.latest[p])
  }

  /** The client's mark table is the full one cut at the oldest read in flight. */
  ghost predicate TablePruned(s: State) {
    s.client.marked == Newer(s.latest, Floor(s.client))
  }

  /** The entry was fetched after every covering mark up to `until`. */
  ghost predicate UpToDate(s: State, key: string, until: nat) {
    key in s.store ==>
      forall p, m :: (p, m) in s.history && m <= until && KeyUnder(key, p) ==> m <= s.store[key].fetchedAt
  }

  /** An entry older than a covering mark is still under that mark's prefix, which is dirty since then. */
  ghost predicate Covered(s: State) {
    forall key, p, m :: key in s.store && (p, m) in s.history && KeyUnder(key, p) && s.store[key].fetchedAt < m ==>
      p in s.client.dirty && m <= s.client.dirty[p]
  }

  /** What a waiting cached read may find is no older than the marks it has seen. */
  ghost predicate ReadersSafe(s: State) {
    forall id :: id in s.readers && s.readers[id].Checked? ==> UpToDate(s, s.readers[id].key, s.readers[id].seen)
  }

  /** Under a prefix a task has deleted, nothing is older than that prefix's marks up to the task's. */
  ghost predicate TasksSafe(s: State) {
    forall t, p, key, m ::
      (t in s.tasks && p in s.tasks[t].deleted && key in s.store && KeyUnder(key, p)
       && (p, m) in s.history && m <= s.tasks[t].generation) ==> m <= s.store[key].fetchedAt
  }

  ghost predicate Inv(s: State) {
    Counted(s) && Ordered(s) && TablePruned(s) && Covered(s) && ReadersSafe(s) && TasksSafe(s)
  }

  // ---------------------------------------------------------------- Pruning loses nothing

  lemma {:induction false} SetAllKeys(marks: map<string, nat>, prefixes: seq<string>, g: nat)
    ensures forall p :: p in SetAll(marks, prefixes, g) <==> p in marks || p in prefixes
    ensures forall p :: p in prefixes ==> SetAll(marks, prefixes, g)[p] == g
    ensures forall p :: p in marks && p !in prefixes ==> SetAll(marks, prefixes, g)[p] == marks[p]
  {
    if prefixes != [] {
      var n := |prefixes| - 1;
      SetAllKeys(marks, prefixes[..n], g);
      assert prefixes == prefixes[..n] + [prefixes[n]];
    }
  }

  lemma FloorBelow(c: Client, g: nat)
    requires g in c.inFlight
    ensures Floor(c) <= g
  {}

  /**
   For every read in flight, the test over the pruned table answers as it would had no mark ever been
   dropped: no covering mark was made since the read began.
   */
  lemma PruningRefines(s: State, id: nat, key: string)
    requires Inv(s) && id in s.readers && InFlight(s.readers[id])
    ensures var g := s.readers[id].readAt;
            && (MayStore(s.client, key, g) <==> MayStoreWith(s.latest, key, g))
            && (MayStore(s.client, key, g) <==>
                  forall p, m :: (p, m) in s.history && KeyUnder(key, p) ==> m <= g)
  {
    hide KeyUnder;
    var g := s.readers[id].readAt;
    assert id in ReadersAt(s.readers, g);
    assert ReadersAt(s.readers, g) != {};
    assert CountedAt(s.client.inFlight, s.readers, g);
    FloorBelow(s.client, g);
    assert forall p :: p in s.latest && s.latest[p] > g ==> p in s.client.marked;
  }

  /** With no read in flight the table is empty. */
  lemma NoReadNoMarks(s: State)
    requires Inv(s) && forall id :: id in s.readers ==> !InFlight(s.readers[id])
    ensures s.client.marked == map[]
  {
    forall g ensures g !in s.client.inFlight {
      assert ReadersAt(s.readers, g) == {};
      assert CountedAt(s.client.inFlight, s.readers, g);
    }
    assert s.client.inFlight == map[];
  }

  // ---------------------------------------------------------------- Counting

  lemma CountBegin(s: State, id: nat, key: string, t: State)
    requires Counted(s) && (id in s.readers ==> s.readers[id].Checked?)
    requires t == s.(client := BeginRead(s.client), readers := s.readers[id := Fetching(key, s.client.generation)])
    ensures Counted(t)
  {
    forall g ensures CountedAt(t.client.inFlight, t.readers, g) {
      assert CountedAt(s.client.inFlight, s.readers, g);
      ReadersBegin(s.readers, id, key, s.client.generation, g);
    }
  }

  lemma ReadersBegin(readers: map<nat, Reader>, id: nat, key: string, now: nat, g: nat)
    requires id in readers ==> readers[id].Checked?
    ensures |ReadersAt(readers[id := Fetching(key, now)], g)| == |ReadersAt(readers, g)| + if g == now then 1 else 0
  {
    var after := ReadersAt(readers[id := Fetching(key, now)], g);
    assert id !in ReadersAt(readers, g);
    assert after == if g == now then ReadersAt(readers, g) + {id} else ReadersAt(readers, g);
  }

  lemma CountEnd(s: State, id: nat)
    requires Counted(s) && Enabled(s, Finish(id))
    ensures Counted(Next(s, Finish(id)))
  {
    var t := Next(s, Finish(id));
    forall g ensures CountedAt(t.client.inFlight, t.readers, g) {
      assert CountedAt(s.client.inFlight, s.readers, g);
      ReadersEnd(s.readers, id, g);
    }
  }

  lemma ReadersEnd(readers: map<nat, Reader>, id: nat, g: nat)
    requires id in readers && InFlight(readers[id])
    ensures |ReadersAt(readers - {id}, g)| == |ReadersAt(readers, g)| - if g == readers[id].readAt then 1 else 0
  {
    assert ReadersAt(readers - {id}, g)
        == if g == readers[id].readAt then ReadersAt(readers, g) - {id} else ReadersAt(readers, g);
  }

  lemma CountSame(s: State, t: State)
    requires Counted(s) && t.client.inFlight == s.client.inFlight
    requires forall id :: id in t.readers && InFlight(t.readers[id]) ==>
               id in s.readers && InFlight(s.readers[id]) && t.readers[id].readAt == s.readers[id].readAt
    requires forall id :: id in s.readers && InFlight(s.readers[id]) ==> id in t.readers && InFlight(t.readers[id])
    ensures Counted(t)
  {
    forall g ensures CountedAt(t.client.inFlight, t.readers, g) {
      assert CountedAt(s.client.inFlight, s.readers, g);
      assert ReadersAt(t.readers, g) == ReadersAt(s.readers, g);
    }
  }

  // ---------------------------------------------------------------- Steps of reads

  lemma CheckKeeps(s: State, id: nat, key: string)
    requires Inv(s) && Enabled(s, Check(id, key))
    ensures Inv(Next(s, Check(id, key)))
  {
    hide KeyUnder;
    var t := Next(s, Check(id, key));
    CountSame(s, t);
    CleanIsUpToDate(s, key, s.client.generation);
  }

  /** A stored entry under no dirty prefix is newer than every covering mark. */
  lemma CleanIsUpToDate(s: State, key: string, until: nat)
    requires Covered(s) && !IsDirty(s.client, key)
    ensures UpToDate(s, key, until)
  {
    hide KeyUnder;
  }

  lemma LeaveKeeps(s: State, id: nat)
    requires Inv(s) && id in s.readers && s.readers[id].Checked?
    ensures Inv(s.(readers := s.readers - {id}))
  {
    hide KeyUnder;
    CountSame(s, s.(readers := s.readers - {id}));
  }

  lemma BeginFloor(c: Client)
    requires forall g :: g in c.inFlight ==> g <= c.generation
    ensures Floor(BeginRead(c)) == Floor(c)
  {
    var d := BeginRead(c);
    if c.inFlight == map[] {
      assert d.inFlight.Keys == {c.generation};
      FloorUnique(d, c.generation, Floor(d));
    } else {
      assert IsFloor(d, Floor(c));
      FloorUnique(d, Floor(c), Floor(d));
    }
  }

  lemma BeginKeeps(s: State, id: nat, key: string, t: State)
    requires Inv(s) && (id in s.readers ==> s.readers[id].Checked?)
    requires t == s.(client := BeginRead(s.client), readers := s.readers[id := Fetching(key, s.client.generation)])
    ensures Inv(t)
  {
    hide KeyUnder;
    CountBegin(s, id, key, t);
    BeginFloor(s.client);
  }

  lemma SettleKeeps(s: State, id: nat, value: string, cacheable: bool)
    requires Inv(s) && Enabled(s, Settle(id, value, cacheable))
    ensures Inv(Next(s, Settle(id, value, cacheable)))
  {
    hide KeyUnder, Counted, TablePruned;
    var t := Next(s, Settle(id, value, cacheable));
    var r := s.readers[id];
    PruningRefines(s, id, r.key);
    assert Counted(t) by {
      CountSame(s, t);
    }
    assert TablePruned(t) by {
      SameTable(s, t);
    }
  }

  lemma SameTable(s: State, t: State)
    requires TablePruned(s) && t.client == s.client && t.latest == s.latest
    ensures TablePruned(t)
  {}

  lemma EndFloor(c: Client, g: nat)
    requires g in c.inFlight && c.inFlight[g] > 0 && forall h :: h in c.inFlight ==> h <= c.generation
    ensures Floor(c) <= Floor(c.(inFlight := WithoutRead(c.inFlight, g)))
    ensures Floor(EndRead(c, g)) == Floor(c.(inFlight := WithoutRead(c.inFlight, g)))
  {
    var d := c.(inFlight := WithoutRead(c.inFlight, g));
    FloorUnique(EndRead(c, g), Floor(d), Floor(EndRead(c, g)));
    FloorBelow(c, g);
    assert d.inFlight != map[] ==> Floor(d) in c.inFlight;
  }

  lemma EndTable(s: State, id: nat)
    requires Ordered(s) && TablePruned(s) && Enabled(s, Finish(id))
    requires s.readers[id].readAt in s.client.inFlight
    ensures TablePruned(Next(s, Finish(id)))
  {
    hide Floor, KeyUnder;
    EndFloor(s.client, s.readers[id].readAt);
    var f, g := Floor(s.client), Floor(Next(s, Finish(id)).client);
    NewerTwice(s.latest, f, g);
  }

  lemma NewerTwice(marks: map<string, nat>, f: nat, g: nat)
    requires f <= g
    ensures Newer(Newer(marks, f), g) == Newer(marks, g)
  {}

  lemma FinishKeeps(s: State, id: nat)
    requires Inv(s) && Enabled(s, Finish(id))
    ensures Inv(Next(s, Finish(id)))
  {
    hide KeyUnder, Counted, TablePruned;
    CountEnd(s, id);
    EndTable(s, id);
    var t := Next(s, Finish(id));
    assert forall h :: h in t.client.inFlight ==> h in s.client.inFlight;
    assert t.client.dirty == s.client.dirty;
    assert Ordered(t);
  }

  // ---------------------------------------------------------------- Steps of invalidation

  lemma MarkFloor(c: Client, prefixes: seq<string>)
    requires forall g :: g in c.inFlight ==> g <= c.generation
    ensures Floor(c) <= Floor(Mark(c, prefixes)) <= c.generation + 1
    ensures c.inFlight != map[] ==> Floor(Mark(c, prefixes)) == Floor(c)
  {
    hide SetAll;
    var d := Mark(c, prefixes);
    if c.inFlight != map[] {
      assert Floor(c) in d.inFlight;
      FloorUnique(d, Floor(c), Floor(d));
    }
  }

  lemma MarkedAfter(c: Client, prefixes: seq<string>)
    ensures Mark(c, prefixes).marked
         == Newer(SetAll(c.marked, prefixes, c.generation + 1), Floor(Mark(c, prefixes)))
  {
    hide SetAll;
    var g := c.generation + 1;
    var before := c.(generation := g, dirty := SetAll(c.dirty, prefixes, g), marked := SetAll(c.marked, prefixes, g));
    var d := Mark(c, prefixes);
    assert d == Pruned(before);
    FloorUnique(before, Floor(d), Floor(before));
  }

  lemma MarkTable(s: State, prefixes: seq<string>)
    requires Ordered(s) && TablePruned(s)
    ensures TablePruned(MarkState(s, prefixes))
  {
    hide Floor, Mark, SetAll, Newer;
    MarkFloor(s.client, prefixes);
    MarkedAfter(s.client, prefixes);
    NewerMarked(s.latest, prefixes, s.client.generation + 1, Floor(s.client), Floor(Mark(s.client, prefixes)));
  }

  lemma NewerMarked(latest: map<string, nat>, prefixes: seq<string>, g: nat, f: nat, h: nat)
    requires f <= h
    ensures Newer(SetAll(Newer(latest, f), prefixes, g), h) == Newer(SetAll(latest, prefixes, g), h)
  {
    hide SetAll;
    SetAllKeys(Newer(latest, f), prefixes, g);
    SetAllKeys(latest, prefixes, g);
  }

  lemma MarkOrdered(s: State, prefixes: seq<string>)
    requires Ordered(s)
    ensures Ordered(MarkState(s, prefixes))
  {
    hide SetAll, Newer, Floor;
    SetAllKeys(s.latest, prefixes, s.client.generation + 1);
  }

  lemma MarkCovered(s: State, prefixes: seq<string>)
    requires Covered(s) && Ordered(s)
    ensures Covered(MarkState(s, prefixes))
  {
    hide KeyUnder;
    SetAllKeys(s.client.dirty, prefixes, s.client.generation + 1);
    SetAllKeys(s.latest, prefixes, s.client.generation + 1);
  }

  lemma MarkKeeps(s: State, prefixes: seq<string>)
    requires Inv(s)
    ensures Inv(MarkState(s, prefixes))
  {
    hide KeyUnder, Counted, TablePruned, Covered;
    var t := MarkState(s, prefixes);
    assert Counted(t) by {
      CountSame(s, t);
    }
    MarkTable(s, prefixes);
    MarkOrdered(s, prefixes);
    MarkCovered(s, prefixes);
    assert ReadersSafe(t);
    assert TasksSafe(t);
  }

  lemma DrainOrdered(s: State, prefixes: seq<string>)
    requires Inv(s) && DirtyBounded(s) && prefixes != [] && DrainTarget(s.client.dirty, prefixes).Some?
    ensures DrainTarget(s.client.dirty, prefixes).value <= s.client.generation
  {
    DrainTargetIsMark(s.client.dirty, prefixes);
  }

  /** Dirty marks are marks that were made. */
  ghost predicate DirtyBounded(s: State) {
    forall p :: p in s.client.dirty ==> s.client.dirty[p] <= s.client.generation
  }

  lemma NewTaskKeeps(s: State, t: nat, prefixes: seq<string>, g: nat)
    requires Inv(s) && t !in s.tasks && g <= s.client.generation
    ensures Inv(s.(tasks := s.tasks[t := Task(prefixes, g, {})]))
  {
    hide KeyUnder;
    var u := s.(tasks := s.tasks[t := Task(prefixes, g, {})]);
    CountSame(s, u);
  }

  lemma DeleteKeeps(s: State, t: nat, p: string)
    requires Inv(s) && Enabled(s, DeleteUnder(t, p))
    ensures Inv(Next(s, DeleteUnder(t, p)))
  {
    hide KeyUnder, Deletes, Counted, TablePruned;
    var u := Next(s, DeleteUnder(t, p));
    assert Counted(u) by {
      CountSame(s, u);
    }
    assert TablePruned(u) by {
      SameTable(s, u);
    }
    forall key | key in u.store ensures !KeyUnder(key, p) && u.store[key] == s.store[key] {
      DeletesWhatItCovers(key, p);
    }
  }

  /**
   Clearing a mark is safe: the prefix was deleted after its latest mark, and what came back since is
   newer.
   */
  lemma CleanKeeps(s: State, t: nat)
    requires Inv(s) && Enabled(s, Clean(t))
    ensures Inv(Next(s, Clean(t)))
  {
    hide KeyUnder, Counted, TablePruned;
    var u := Next(s, Clean(t));
    assert Counted(u) by {
      CountSame(s, u);
    }
    assert TablePruned(u) by {
      SameFloor(s, u);
    }
    CleanCovered(s, t);
  }

  lemma SameFloor(s: State, u: State)
    requires TablePruned(s) && u.latest == s.latest && u.client.marked == s.client.marked
    requires u.client.inFlight == s.client.inFlight && u.client.generation == s.client.generation
    ensures TablePruned(u)
  {
    FloorUnique(u.client, Floor(s.client), Floor(u.client));
  }

  lemma CleanCovered(s: State, t: nat)
    requires Covered(s) && TasksSafe(s) && Enabled(s, Clean(t))
    ensures Covered(Next(s, Clean(t)))
  {
    hide KeyUnder;
    var task := s.tasks[t];
    forall key, p, m | key in s.store && (p, m) in s.history && KeyUnder(key, p) && m <= task.generation
                       && p in task.prefixes
      ensures m <= s.store[key].fetchedAt
    {
      assert p in task.deleted;
    }
  }

  lemma DropKeeps(s: State, keys: set<string>)
    requires Inv(s)
    ensures Inv(s.(store := s.store - keys))
  {
    hide KeyUnder;
    CountSame(s, s.(store := s.store - keys));
  }

  lemma FailKeeps(s: State, t: nat)
    requires Inv(s)
    ensures Inv(s.(tasks := s.tasks - {t}))
  {
    hide KeyUnder;
    CountSame(s, s.(tasks := s.tasks - {t}));
  }

  // ---------------------------------------------------------------- All runs

  lemma StepKeeps(s: State, a: Action)
    requires Inv(s) && DirtyBounded(s) && Enabled(s, a)
    ensures Inv(Next(s, a)) && DirtyBounded(Next(s, a))
  {
    hide Inv, KeyUnder;
    match a {
      case Check(id, key) => CheckKeeps(s, id, key);
      case Hit(id) => LeaveKeeps(s, id);
      case Miss(id) => BeginKeeps(s, id, s.readers[id].key, Next(s, a));
      case Fresh(id, key) => BeginKeeps(s, id, key, Next(s, a));
      case Abandon(id) => LeaveKeeps(s, id);
      case Settle(id, value, cacheable) => SettleKeeps(s, id, value, cacheable);
      case Finish(id) => FinishKeeps(s, id);
      case Mutate(prefixes) =>
        MarkKeeps(s, prefixes);
        SetAllKeys(s.client.dirty, prefixes, s.client.generation + 1);
      case Invalidate(t, prefixes) =>
        MarkKeeps(s, prefixes);
        SetAllKeys(s.client.dirty, prefixes, s.client.generation + 1);
        NewTaskKeeps(MarkState(s, prefixes), t, prefixes, s.client.generation + 1);
      case Drain(t, prefixes) =>
        DrainOrdered(s, prefixes);
        NewTaskKeeps(s, t, prefixes, DrainTarget(s.client.dirty, prefixes).value);
      case DeleteUnder(t, p) => DeleteKeeps(s, t, p);
      case Clean(t) => CleanKeeps(s, t);
      case Fail(t) => FailKeeps(s, t);
      case Drop(keys) => DropKeeps(s, keys);
    }
  }

  lemma InitialInv(s: State)
    requires Initial(s)
    ensures Inv(s) && DirtyBounded(s)
  {
    forall g ensures ReadersAt(s.readers, g) == {} {}
    assert Newer(s.latest, Floor(s.client)) == map[];
  }

  lemma {:induction false} RunKeeps(s: State, actions: seq<Action>, t: State)
    requires Inv(s) && DirtyBounded(s) && Reaches(s, actions, t)
    ensures Inv(t) && DirtyBounded(t)
    decreases |actions|
  {
    hide Inv, Enabled, Next;
    if actions != [] {
      StepKeeps(s, actions[0]);
      RunKeeps(Next(s, actions[0]), actions[1..], t);
    }
  }

  /** The invariant holds in every state any interleaving leads to. */
  lemma ReachableInv(t: State)
    requires Reachable(t)
    ensures Inv(t) && DirtyBounded(t)
  {
    hide Inv, Initial, Reaches;
    var s, actions :| Initial(s) && Reaches(s, actions, t);
    InitialInv(s);
    RunKeeps(s, actions, t);
  }

  /**
   Freshness: a cached read never returns a value whose forge read began before a mark that covers its
   key and was made before the read looked for dirty prefixes.
   */
  lemma CachedReadsAreFresh(s: State, id: nat)
    requires Reachable(s) && Enabled(s, Hit(id))
    ensures var r := s.readers[id];
            forall p, m :: (p, m) in s.history && KeyUnder(r.key, p) && m <= r.seen ==> m <= s.store[r.key].fetchedAt
  {
    hide KeyUnder, Reachable;
    ReachableInv(s);
    assert UpToDate(s, s.readers[id].key, s.readers[id].seen);
  }

  /** An entry older than a covering mark stays behind a dirty prefix, whether or not invalidation ever runs. */
  lemma StaleEntriesStayDirty(s: State, key: string, p: string, m: nat)
    requires Reachable(s) && key in s.store && (p, m) in s.history && KeyUnder(key, p) && s.store[key].fetchedAt < m
    ensures IsDirty(s.client, key)
  {
    hide KeyUnder, Reachable;
    ReachableInv(s);
  }

  /** In every reachable state the pruned table decides as the full history would. */
  lemma PruningIsExact(s: State, id: nat, key: string)
    requires Reachable(s) && id in s.readers && InFlight(s.readers[id])
    ensures MayStore(s.client, key, s.readers[id].readAt) <==>
              forall p, m :: (p, m) in s.history && KeyUnder(key, p) ==> m <= s.readers[id].readAt
  {
    hide KeyUnder, Reachable, Inv;
    ReachableInv(s);
    PruningRefines(s, id, key);
  }

  /** And the table is empty whenever no read is in flight. */
  lemma QuietTableIsEmpty(s: State)
    requires Reachable(s) && forall id :: id in s.readers ==> !InFlight(s.readers[id])
    ensures s.client.marked == map[]
  {
    hide Reachable, Inv;
    ReachableInv(s);
    NoReadNoMarks(s);
  }

  /** Ending a read never finds its count missing. */
  lemma ReadsCanEnd(s: State, id: nat)
    requires Reachable(s) && id in s.readers && InFlight(s.readers[id])
    ensures Enabled(s, Finish(id))
  {
    hide Reachable, KeyUnder;
    ReachableInv(s);
    var g := s.readers[id].readAt;
    assert id in ReadersAt(s.readers, g);
    assert CountedAt(s.client.inFlight, s.readers, g);
  }

  // ---------------------------------------------------------------- The cache is used

  /**
   A read may look into the store exactly when no dirty prefix covers its key, and then it is answered
   with what the store has.
   */
  lemma CleanKeysUseCache(s: State, id: nat, key: string)
    requires id !in s.readers
    ensures Enabled(s, Check(id, key)) <==> forall p :: p in s.client.dirty ==> !KeyUnder(key, p)
    ensures Enabled(s, Check(id, key)) && key in s.store ==>
              var t := Next(s, Check(id, key)); Enabled(t, Hit(id)) && t.readers[id].key == key && t.store == s.store
  {
    hide KeyUnder;
  }

  /** Prefixes are dirty with their latest mark, and only marks make them so. */
  ghost predicate DirtyIsLatest(s: State) {
    forall p :: p in s.client.dirty ==> p in s.latest && s.client.dirty[p] == s.latest[p]
  }

  lemma StepKeepsDirty(s: State, a: Action)
    requires DirtyIsLatest(s) && Enabled(s, a)
    ensures DirtyIsLatest(Next(s, a))
  {
    hide KeyUnder, Deletes;
    match a {
      case Mutate(prefixes) => MarkKeepsDirty(s, prefixes);
      case Invalidate(_, prefixes) => MarkKeepsDirty(s, prefixes);
      case _ =>
    }
  }

  lemma MarkKeepsDirty(s: State, prefixes: seq<string>)
    requires DirtyIsLatest(s)
    ensures DirtyIsLatest(MarkState(s, prefixes))
  {
    hide SetAll;
    SetAllKeys(s.client.dirty, prefixes, s.client.generation + 1);
    SetAllKeys(s.latest, prefixes, s.client.generation + 1);
  }

  lemma {:induction false} RunKeepsDirty(s: State, actions: seq<Action>, t: State)
    requires DirtyIsLatest(s) && Reaches(s, actions, t)
    ensures DirtyIsLatest(t)
    decreases |actions|
  {
    hide DirtyIsLatest, Enabled, Next;
    if actions != [] {
      StepKeepsDirty(s, actions[0]);
      RunKeepsDirty(Next(s, actions[0]), actions[1..], t);
    }
  }

  /** When an invalidation ends, of its prefixes exactly those marked again since then stay dirty; no other changes. */
  lemma CleaningIsExact(s: State, t: nat, p: string)
    requires Reachable(s) && Enabled(s, Clean(t))
    ensures p in s.client.dirty ==> p in s.latest
    ensures p in Next(s, Clean(t)).client.dirty
       <==> p in s.client.dirty && !(p in s.tasks[t].prefixes && s.latest[p] == s.tasks[t].generation)
  {
    hide Initial, Reaches, KeyUnder;
    var start, actions :| Initial(start) && Reaches(start, actions, s);
    assert DirtyIsLatest(start) by {
      NothingDirty(start);
    }
    RunKeepsDirty(start, actions, s);
  }

  lemma NothingDirty(s: State)
    requires Initial(s)
    ensures DirtyIsLatest(s)
  {}
}
