/** The cache table: expiry, prefix deletion and eviction of the least recently used rows. */
module CacheStores {
  import opened Options
  import opened Utf8
  import opened CacheKeys

  /** `usedAt` is the `created_at` column, which a read refreshes. */
  datatype Row = Row(value: seq<Byte>, expiresAt: real, usedAt: real, size: nat)

  // ---------------------------------------------------------------- Sizes

  ghost function Total(table: map<string, Row>): nat {
    if table == map[] then 0
    else
      var k :| k in table;
      table[k].size + Total(table - {k})
  }

  lemma {:induction false} TotalRemove(table: map<string, Row>, k: string)
    requires k in table
    ensures Total(table) == table[k].size + Total(table - {k})
    decreases |table|
  {
    var j :| j in table && Total(table) == table[j].size + Total(table - {j});
    if j != k {
      TotalRemove(table - {j}, k);
      TotalRemove(table - {k}, j);
      assert table - {j} - {k} == table - {k} - {j};
    }
  }

  lemma TotalEmpty()
    ensures Total(map[]) == 0
  {}

  /** `a` holds some of the rows of `b`, unchanged. */
  ghost predicate Within(a: map<string, Row>, b: map<string, Row>) {
    forall k :: k in a ==> k in b && a[k] == b[k]
  }

  /** Every row that went was used no later than every row that stayed. */
  ghost predicate OldestGone(before: map<string, Row>, after: map<string, Row>) {
    forall e, k :: e in before && e !in after && k in after ==> before[e].usedAt <= after[k].usedAt
  }

  lemma OldestTwice(a: map<string, Row>, b: map<string, Row>, c: map<string, Row>)
    requires Within(b, a) && Within(c, b) && OldestGone(a, b) && OldestGone(b, c)
    ensures Within(c, a) && OldestGone(a, c)
  {}

  /** How many rows one pass of eviction deletes. */
  function Quarter(count: nat): nat {
    if count / 4 > 1 then count / 4 else 1
  }

  /** A quarter of the rows, rounded down, but at least one. */
  predicate IsQuarter(removed: int, count: nat) {
    if count < 4 then removed == 1 else 4 * removed <= count < 4 * (removed + 1)
  }

  /** The last pass ran on a table over the limit and deleted one quarter of it. */
  ghost predicate LastPass(before: map<string, Row>, mid: map<string, Row>, after: map<string, Row>, limit: nat) {
    && Within(mid, before) && Within(after, mid) && OldestGone(before, mid) && OldestGone(mid, after)
    && Total(mid) > limit && IsQuarter(|mid| - |after|, |mid|)
  }

  /** What eviction makes of a table. */
  ghost predicate Evicted(before: map<string, Row>, after: map<string, Row>, limit: nat) {
    && Total(after) <= limit && Within(after, before) && OldestGone(before, after)
    && (after == before || exists mid :: LastPass(before, mid, after, limit))
  }

  predicate Excluded(key: string) {
    "job_log:" <= key || "stream_log:" <= key
  }

  /** Log texts, whatever follows the prefix. */
  lemma ExcludedAreLogs(key: string)
    ensures Excluded(key) <==> exists rest :: key == "job_log:" + rest || key == "stream_log:" + rest
  {
    if "job_log:" <= key {
      assert key == "job_log:" + key[8..];
    }
    if "stream_log:" <= key {
      assert key == "stream_log:" + key[11..];
    }
  }

  // ---------------------------------------------------------------- The store

  class CacheStore {
    const limit: nat
    var isOpen: bool
    var table: map<string, Row>

    /** Sizes are those of the values, and no log text is ever kept. */
    ghost predicate Valid()
      reads this
    {
      forall k :: k in table ==> table[k].size == |table[k].value| && !Excluded(k)
    }

    constructor (maxSizeMb: nat)
      ensures Valid() && table == map[] && !isOpen && limit == maxSizeMb * 1024 * 1024
    {
      limit := maxSizeMb * 1024 * 1024;
      isOpen := false;
      table := map[];
    }

    /** A live row's value, which counts as used now; nothing for a missing, expired or excluded key. */
    method Get(key: string, now: real) returns (r: Option<seq<Byte>>)
      requires Valid()
      modifies this`table
      ensures Valid()
      ensures r == if old(isOpen) && !Excluded(key) && key in old(table) && old(table)[key].expiresAt > now
                   then Some(old(table)[key].value) else None
      ensures table == if r.None? then old(table) else old(table)[key := old(table)[key].(usedAt := now)]
    {
      if !isOpen || Excluded(key) || key !in table || table[key].expiresAt <= now {
        return None;
      }
      r := Some(table[key].value);
      table := table[key := table[key].(usedAt := now)];
    }

    /** The new row replaces an old one of its key; then the table is cut to the limit. */
    method Put(key: string, value: seq<Byte>, ttl: real, now: real)
      requires Valid()
      modifies this`table
      ensures Valid()
      ensures !isOpen || Excluded(key) ==> table == old(table)
      ensures isOpen && !Excluded(key) ==>
                Evicted(old(table)[key := Row(value, now + ttl, now, |value|)], table, limit)
    {
      if !isOpen || Excluded(key) {
        return;
      }
      table := table[key := Row(value, now + ttl, now, |value|)];
      EnforceSizeLimit();
    }

    method Invalidate(key: string)
      requires Valid()
      modifies this`table
      ensures Valid() && table == if isOpen then old(table) - {key} else old(table)
    {
      if isOpen {
        table := table - {key};
      }
    }

    /** Exactly the keys under the prefix go. */
    method InvalidatePrefix(prefix: string)
      requires Valid()
      modifies this`table
      ensures Valid() && Within(table, old(table))
      ensures forall k :: k in old(table) ==> (k in table <==> !isOpen || !KeyUnder(k, prefix))
    {
      if isOpen {
        table := map k | k in table && !Deletes(k, prefix) :: table[k];
        forall k ensures Deletes(k, prefix) <==> KeyUnder(k, prefix) {
          DeletesWhatItCovers(k, prefix);
        }
      }
    }

    method Clear()
      requires Valid()
      modifies this`table
      ensures Valid() && table == if isOpen then map[] else old(table)
    {
      if isOpen {
        table := map[];
      }
    }

    method Prune(now: real)
      requires Valid()
      modifies this`table
      ensures Valid() && Within(table, old(table))
      ensures forall k :: k in old(table) ==> (k in table <==> !isOpen || old(table)[k].expiresAt > now)
    {
      if isOpen {
        table := map k | k in table && table[k].expiresAt > now :: table[k];
      }
    }

    /** `SELECT COALESCE(SUM(size_bytes), 0)`. */
    method SumSizes() returns (total: nat)
      ensures total == Total(table)
    {
      total := 0;
      var rest := table;
      while rest != map[]
        invariant total + Total(rest) == Total(table)
        decreases |rest|
      {
        var k :| k in rest;
        TotalRemove(rest, k);
        total := total + rest[k].size;
        rest := rest - {k};
      }
      TotalEmpty();
    }

    /** Deletes the `n` least recently used rows; which of equally old rows go is left open. */
    method DeleteOldest(n: nat) returns (removed: nat)
      requires Valid() && n <= |table|
      modifies this`table
      ensures Valid() && removed == n && |table| == |old(table)| - n
      ensures Within(table, old(table)) && OldestGone(old(table), table)
    {
      ghost var before := table;
      removed := 0;
      while removed < n
        invariant removed <= n && |table| == |before| - removed
        invariant Valid() && Within(table, before) && OldestGone(before, table)
      {
        var oldest := FindOldest();
        ghost var mid := table;
        table := table - {oldest};
        assert table.Keys == mid.Keys - {oldest};
        assert |table| == |mid| - 1;
        OldestTwice(before, mid, table);
        removed := removed + 1;
      }
    }

    method FindOldest() returns (oldest: string)
      requires table != map[]
      ensures oldest in table && forall k :: k in table ==> table[oldest].usedAt <= table[k].usedAt
    {
      var rest := table.Keys;
      oldest :| oldest in rest;
      rest := rest - {oldest};
      while rest != {}
        invariant rest <= table.Keys && oldest in table
        invariant forall k :: k in table && k !in rest ==> table[oldest].usedAt <= table[k].usedAt
      {
        var k :| k in rest;
        if table[k].usedAt < table[oldest].usedAt {
          oldest := k;
        }
        rest := rest - {k};
      }
    }

    /** `_enforce_size_limit`: quarter by quarter, oldest first, until the total fits. */
    method EnforceSizeLimit()
      requires Valid()
      modifies this`table
      ensures Valid() && (isOpen ==> Evicted(old(table), table, limit)) && (!isOpen ==> table == old(table))
    {
      if !isOpen {
        return;
      }
      ghost var before := table;
      var total := SumSizes();
      while total > limit
        invariant Valid() && total == Total(table)
        invariant Within(table, before) && OldestGone(before, table)
        invariant table == before || exists mid :: LastPass(before, mid, table, limit)
        decreases |table|
      {
        ghost var mid := table;
        NonEmpty(table);
        var removed := DeleteOldest(Quarter(|table|));
        if removed <= 0 {
          break;
        }
        assert LastPass(before, mid, table, limit);
        OldestTwice(before, mid, table);
        total := SumSizes();
      }
    }
  }

  lemma NonEmpty(table: map<string, Row>)
    requires Total(table) > 0
    ensures |table| > 0 && Quarter(|table|) <= |table|
  {
    TotalEmpty();
  }

  /** A table within the limit loses nothing. */
  lemma NoGratuitousEviction(before: map<string, Row>, after: map<string, Row>, limit: nat)
    requires Evicted(before, after, limit) && Total(before) <= limit
    ensures after == before
  {
    if after != before {
      var mid :| LastPass(before, mid, after, limit);
      TotalWithin(mid, before);
      assert false;
    }
  }

  lemma {:induction false} TotalWithin(a: map<string, Row>, b: map<string, Row>)
    requires Within(a, b)
    ensures Total(a) <= Total(b)
    decreases |a|
  {
    if a == map[] {
      TotalEmpty();
    } else {
      var k :| k in a;
      TotalRemove(a, k);
      TotalRemove(b, k);
      TotalWithin(a - {k}, b - {k});
    }
  }

  /** A row larger than the whole limit does not survive its own put. */
  lemma OversizedRowGoes(before: map<string, Row>, after: map<string, Row>, limit: nat, key: string)
    requires Evicted(before, after, limit) && key in before && before[key].size > limit
    ensures key !in after
  {
    if key in after {
      TotalRemove(after, key);
      assert false;
    }
  }
}
