/**
 The cache coherence protocol: reads, mutations, dirty marks and background invalidation, interleaved
 between the points where the client waits.

 Each action is what runs between two waits. The store handles statements in the order they are
 issued, so the test whether a result may be stored and the storing are one action.
 */
module CacheProtocol {
  import opened Options
  import opened CacheKeys

  // ---------------------------------------------------------------- The client's tables

  /** The generation counter, the dirty prefixes, the marks kept for reads in flight, and those reads counted. */
  datatype Client = Client(dirty: map<string, nat>, generation: nat, marked: map<string, nat>,
                           inFlight: map<nat, nat>)

  const FRESH_CLIENT := Client(map[], 0, map[], map[])

  predicate IsDirty(c: Client, key: string) {
    exists p :: p in c.dirty && KeyUnder(key, p)
  }

  predicate MayStoreWith(marked: map<string, nat>, key: string, generation: nat) {
    forall p :: p in marked && marked[p] > generation ==> !KeyUnder(key, p)
  }

  predicate MayStore(c: Client, key: string, generation: nat) {
    c.generation == generation || MayStoreWith(c.marked, key, generation)
  }

  /** The oldest read in flight, or the current generation. */
  ghost predicate IsFloor(c: Client, floor: nat) {
    if c.inFlight == map[] then floor == c.generation
    else floor in c.inFlight && forall g :: g in c.inFlight ==> floor <= g
  }

  lemma {:induction false} FloorExists(counts: map<nat, nat>, keys: set<nat>) returns (floor: nat)
    requires keys <= counts.Keys && keys != {}
    ensures floor in keys && forall g :: g in keys ==> floor <= g
    decreases |keys|
  {
    var g :| g in keys;
    var others := keys - {g};
    if others == {} {
      floor := g;
      assert forall x :: x in keys ==> x == g || x in others;
    } else {
      var least := FloorExists(counts, others);
      floor := if g < least then g else least;
      assert forall x :: x in keys ==> x == g || x in others;
    }
  }

  ghost function Floor(c: Client): (floor: nat)
    ensures IsFloor(c, floor)
  {
    if c.inFlight == map[] then c.generation
    else
      assert exists f :: IsFloor(c, f) by {
        assert c.inFlight.Keys != {} by {
          var g :| g in c.inFlight;
        }
        var f := FloorExists(c.inFlight, c.inFlight.Keys);
        assert IsFloor(c, f);
      }
      var f :| IsFloor(c, f); f
  }

  /** The marks newer than `floor`. */
  function Newer(marks: map<string, nat>, floor: nat): map<string, nat> {
    map p | p in marks && marks[p] > floor :: marks[p]
  }

  ghost function Pruned(c: Client): Client {
    c.(marked := Newer(c.marked, Floor(c)))
  }

  function Count(counts: map<nat, nat>, g: nat): nat {
    if g in counts then counts[g] else 0
  }

  function BeginRead(c: Client): Client {
    c.(inFlight := c.inFlight[c.generation := Count(c.inFlight, c.generation) + 1])
  }

  function WithoutRead(counts: map<nat, nat>, g: nat): map<nat, nat>
    requires g in counts && counts[g] > 0
  {
    if counts[g] > 1 then counts[g := counts[g] - 1] else counts - {g}
  }

  ghost function EndRead(c: Client, g: nat): Client
    requires g in c.inFlight && c.inFlight[g] > 0
  {
    Pruned(c.(inFlight := WithoutRead(c.inFlight, g)))
  }

  function SetAll(marks: map<string, nat>, prefixes: seq<string>, g: nat): map<string, nat> {
    if prefixes == [] then marks
    else SetAll(marks, prefixes[..|prefixes| - 1], g)[prefixes[|prefixes| - 1] := g]
  }

  ghost function Mark(c: Client, prefixes: seq<string>): Client {
    var g := c.generation + 1;
    Pruned(c.(generation := g, dirty := SetAll(c.dirty, prefixes, g), marked := SetAll(c.marked, prefixes, g)))
  }

  /** After a complete invalidation: prefixes whose latest mark is this one are clean again. */
  function ClearMarks(dirty: map<string, nat>, prefixes: seq<string>, g: nat): map<string, nat> {
    map p | p in dirty && !(p in prefixes && dirty[p] == g) :: dirty[p]
  }

  // ---------------------------------------------------------------- The client object

  class CachedForgeClient {
    var dirty: map<string, nat>
    var generation: nat
    var marked: map<string, nat>
    var inFlight: map<nat, nat>

    function View(): Client
      reads this
    {
      Client(dirty, generation, marked, inFlight)
    }

    constructor ()
      ensures View() == FRESH_CLIENT
    {
      dirty, generation, marked, inFlight := map[], 0, map[], map[];
    }

    method HasDirtyPrefix(key: string) returns (r: bool)
      ensures r == IsDirty(View(), key)
    {
      var rest := dirty.Keys;
      while rest != {}
        invariant rest <= dirty.Keys
        invariant forall p :: p in dirty && p !in rest ==> !KeyUnder(key, p)
      {
        var p :| p in rest;
        if KeyUnder(key, p) {
          return true;
        }
        rest := rest - {p};
      }
      return false;
    }

    method MayStoreResult(key: string, readAt: nat) returns (r: bool)
      ensures r == MayStore(View(), key, readAt)
    {
      if generation == readAt {
        return true;
      }
      var rest := marked.Keys;
      while rest != {}
        invariant rest <= marked.Keys
        invariant forall p :: p in marked && p !in rest && marked[p] > readAt ==> !KeyUnder(key, p)
      {
        var p :| p in rest;
        if marked[p] > readAt && KeyUnder(key, p) {
          return false;
        }
        rest := rest - {p};
      }
      return true;
    }

    method Begin() returns (readAt: nat)
      modifies this
      ensures readAt == old(generation) && View() == BeginRead(old(View()))
    {
      readAt := generation;
      inFlight := inFlight[readAt := Count(inFlight, readAt) + 1];
    }

    method End(readAt: nat)
      requires readAt in inFlight && inFlight[readAt] > 0
      modifies this
      ensures View() == EndRead(old(View()), readAt)
    {
      var remaining := inFlight[readAt] - 1;
      if remaining > 0 {
        inFlight := inFlight[readAt := remaining];
      } else {
        inFlight := inFlight - {readAt};
      }
      Prune();
    }

    method OldestRead() returns (floor: nat)
      ensures IsFloor(View(), floor)
    {
      if inFlight == map[] {
        return generation;
      }
      var rest := inFlight.Keys;
      floor :| floor in rest;
      rest := rest - {floor};
      while rest != {}
        invariant rest <= inFlight.Keys && floor in inFlight
        invariant forall g :: g in inFlight && g !in rest ==> floor <= g
      {
        var g :| g in rest;
        if g < floor {
          floor := g;
        }
        rest := rest - {g};
      }
    }

    /** `_prune_marked_generations`. */
    method Prune()
      modifies this
      ensures View() == Pruned(old(View()))
    {
      var floor := OldestRead();
      ghost var before := marked;
      var stale := set p | p in marked && marked[p] <= floor;
      while stale != {}
        modifies this
        invariant dirty == old(dirty) && generation == old(generation) && inFlight == old(inFlight)
        invariant forall p :: p in stale ==> p in before && before[p] <= floor
        invariant forall p :: p in marked <==> p in before && (before[p] > floor || p in stale)
        invariant forall p :: p in marked ==> marked[p] == before[p]
      {
        var p :| p in stale;
        marked := marked - {p};
        stale := stale - {p};
      }
      FloorUnique(View(), floor, Floor(View()));
      FloorUnique(old(View()), floor, Floor(old(View())));
      assert marked == Newer(before, floor);
    }

    /** `_mark_review_dirty`. */
    method MarkDirty(prefixes: seq<string>) returns (g: nat)
      modifies this
      ensures g == old(generation) + 1 && View() == Mark(old(View()), prefixes)
    {
      generation := generation + 1;
      ghost var d, m := dirty, marked;
      var k := 0;
      while k < |prefixes|
        modifies this
        invariant k <= |prefixes| && generation == old(generation) + 1 && inFlight == old(inFlight)
        invariant dirty == SetAll(d, prefixes[..k], generation) && marked == SetAll(m, prefixes[..k], generation)
      {
        dirty := dirty[prefixes[k] := generation];
        marked := marked[prefixes[k] := generation];
        assert prefixes[..k + 1][..k] == prefixes[..k];
        k := k + 1;
      }
      assert prefixes[..k] == prefixes;
      Prune();
      g := generation;
    }

    /** The end of `_invalidate_marked`, once every prefix has been deleted. */
    method ClearDirty(prefixes: seq<string>, g: nat)
      modifies this
      ensures View() == old(View()).(dirty := ClearMarks(old(dirty), prefixes, g))
    {
      var k := 0;
      while k < |prefixes|
        modifies this`dirty
        invariant k <= |prefixes|
        invariant dirty == ClearMarks(old(dirty), prefixes[..k], g)
      {
        assert prefixes[..k + 1] == prefixes[..k] + [prefixes[k]];
        if prefixes[k] in dirty && dirty[prefixes[k]] == g {
          dirty := dirty - {prefixes[k]};
        }
        k := k + 1;
      }
      assert prefixes[..k] == prefixes;
    }

    /** The generation a round of `_drain_review_invalidation` works for; None once a prefix is clean. */
    method DrainGeneration(prefixes: seq<string>) returns (r: Option<nat>)
      requires prefixes != []
      ensures r == DrainTarget(dirty, prefixes)
    {
      r := None;
      var k := 0;
      while k < |prefixes|
        invariant k <= |prefixes|
        invariant k > 0 ==> r == DrainTarget(dirty, prefixes[..k]) && r.Some?
        invariant k == 0 ==> r == None
      {
        if prefixes[k] !in dirty {
          DrainBlocked(dirty, prefixes, k);
          return None;
        }
        assert prefixes[..k + 1][..k] == prefixes[..k];
        r := if r.Some? && r.value > dirty[prefixes[k]] then r else Some(dirty[prefixes[k]]);
        k := k + 1;
      }
      assert prefixes[..k] == prefixes;
    }
  }

  lemma FloorUnique(c: Client, f: nat, g: nat)
    requires IsFloor(c, f) && IsFloor(c, g)
    ensures f == g
  {}

  /** The largest mark of the prefixes, None when one of them is not dirty. */
  function DrainTarget(dirty: map<string, nat>, prefixes: seq<string>): Option<nat>
    requires prefixes != []
  {
    var last := prefixes[|prefixes| - 1];
    if last !in dirty then None
    else if |prefixes| == 1 then Some(dirty[last])
    else
      var rest := DrainTarget(dirty, prefixes[..|prefixes| - 1]);
      if rest.None? then None else if rest.value > dirty[last] then rest else Some(dirty[last])
  }

  lemma {:induction false} DrainBlocked(dirty: map<string, nat>, prefixes: seq<string>, k: nat)
    requires k < |prefixes| && prefixes[k] !in dirty
    ensures DrainTarget(dirty, prefixes) == None
  {
    var n := |prefixes| - 1;
    if k < n {
      DrainBlocked(dirty, prefixes[..n], k);
    }
  }

  lemma {:induction false} DrainTargetIsMark(dirty: map<string, nat>, prefixes: seq<string>)
    requires prefixes != [] && DrainTarget(dirty, prefixes).Some?
    ensures exists p :: p in prefixes && p in dirty && dirty[p] == DrainTarget(dirty, prefixes).value
  {
    var n := |prefixes| - 1;
    if n > 0 && DrainTarget(dirty, prefixes).value != dirty[prefixes[n]] {
      DrainTargetIsMark(dirty, prefixes[..n]);
    } else {
      assert prefixes[n] in prefixes;
    }
  }

  lemma {:induction false} DrainTargetIsMax(dirty: map<string, nat>, prefixes: seq<string>)
    requires prefixes != [] && DrainTarget(dirty, prefixes).Some?
    ensures forall p :: p in prefixes ==> p in dirty && dirty[p] <= DrainTarget(dirty, prefixes).value
  {
    var n := |prefixes| - 1;
    assert prefixes == prefixes[..n] + [prefixes[n]];
    if n > 0 {
      DrainTargetIsMax(dirty, prefixes[..n]);
    }
  }

  /**
   One round of draining only clears the newest marks: it leaves no prefix dirty exactly when all had
   been marked together, and either way the next round finds one clean and ends. An older mark then
   stays until its own prefixes are marked again; reads under it keep going past the cache.
   */
  lemma DrainClearsNewest(dirty: map<string, nat>, prefixes: seq<string>)
    requires prefixes != [] && DrainTarget(dirty, prefixes).Some?
    ensures forall p :: p in prefixes ==> p in dirty
    ensures var after := ClearMarks(dirty, prefixes, DrainTarget(dirty, prefixes).value);
            && ((forall p :: p in prefixes ==> p !in after) <==>
                  forall p, q :: p in prefixes && q in prefixes ==> dirty[p] == dirty[q])
            && DrainTarget(after, prefixes) == None
  {
    hide DrainTarget;
    var g := DrainTarget(dirty, prefixes).value;
    var after := ClearMarks(dirty, prefixes, g);
    DrainTargetIsMax(dirty, prefixes);
    DrainTargetIsMark(dirty, prefixes);
    var newest :| newest in prefixes && newest in dirty && dirty[newest] == g;
    var k :| 0 <= k < |prefixes| && prefixes[k] == newest;
    DrainBlocked(after, prefixes, k);
  }
}
