/** The ledger of editor exports: at most eight exported logs share one directory. */
module Exports {
  import opened Options
  import opened Text

  const MAX_EXPORTS := 8
  const STALE_SECONDS: real := 86400.0

  // ---------------------------------------------------------------- Names

  predicate IsHex(c: char) {
    '0' <= c <= '9' || 'a' <= c <= 'f'
  }

  /** 32 lower-case hexadecimal digits. */
  predicate IsToken(token: string) {
    |token| == 32 && forall k :: 0 <= k < |token| ==> IsHex(token[k])
  }

  lemma TokenIsHexText(token: string)
    ensures IsToken(token) <==> |token| == 32 && forall c :: c in token ==> c in "0123456789abcdef"
  {
    forall c: char ensures IsHex(c) <==> c in "0123456789abcdef" {
      HexDigit(c);
    }
  }

  lemma HexDigit(c: char)
    ensures IsHex(c) <==> c in "0123456789abcdef"
  {
    var digits := "0123456789abcdef";
    if '0' <= c <= '9' {
      assert digits[c as int - '0' as int] == c;
    }
    if 'a' <= c <= 'f' {
      assert digits[10 + c as int - 'a' as int] == c;
    }
  }

  predicate InRange(slot: int) { 1 <= slot <= MAX_EXPORTS }

  /** Job numbers in export names have at most 19 digits. */
  const JOB_LIMIT := 10_000_000_000_000_000_000

  /** An export's name, the name of an export made before slots existed, or any other name. */
  datatype ExportName = Slotted(slot: int, job: nat, token: string) | Legacy(id: string) | Foreign(id: string)
  {
    predicate IsExport() { Slotted? && InRange(slot) && 0 < job < JOB_LIMIT && IsToken(token) }
  }

  function Power10(k: nat): nat {
    if k == 0 then 1 else 10 * Power10(k - 1)
  }

  lemma {:induction false} ShowLength(n: nat, k: nat)
    ensures |Show(n)| <= k + 1 <==> n < Power10(k + 1)
    ensures n > 0 ==> Show(n)[0] != '0'
  {
    assert Power10(k + 1) == 10 * Power10(k);
    if n < 10 {
      PowerPositive(k);
    } else {
      ShowLength(n / 10, if k > 0 then k - 1 else 0);
      assert |Show(n)| == |Show(n / 10)| + 1;
      if k > 0 {
        assert n < 10 * Power10(k) <==> n / 10 < Power10(k);
      }
    }
  }

  lemma {:induction false} PowerPositive(k: nat)
    ensures Power10(k) >= 1
  {
    if k > 0 {
      PowerPositive(k - 1);
    }
  }

  /** The name's pattern: a slot from 1 to 8, a job number of 1 to 19 digits without a leading zero, a token. */
  lemma ExportNamePattern(slot: int, job: nat, token: string)
    ensures Slotted(slot, job, token).IsExport()
       <==> 1 <= slot <= 8 && |Show(job)| <= 19 && Show(job)[0] != '0' && IsToken(token)
  {
    hide IsToken;
    ShowLength(job, 18);
    Powers();
    assert Show(0) == "0";
  }

  lemma Powers()
    ensures Power10(19) == JOB_LIMIT
  {
    assert Power10(5) == 100_000;
    assert Power10(10) == 100_000 * Power10(5);
    assert Power10(15) == 100_000 * Power10(10);
  }

  /** The text of an export's name. */
  function NameText(slot: nat, job: nat, token: string): string {
    "tongs-slot-" + (Show(slot) + ("-job-" + Show(job) + ("-" + (token + ".log"))))
  }

  /**
   On a well-formed name the row check's prefix and suffix tests are equalities: the name is that of
   this very slot and token.
   */
  lemma NameTestsAreExact(slot: nat, job: nat, token: string, s: nat, t: string)
    requires InRange(slot) && InRange(s) && IsToken(token) && IsToken(t)
    ensures "tongs-slot-" + (Show(s) + "-") <= NameText(slot, job, token) <==> s == slot
    ensures EndsWith(NameText(slot, job, token), "-" + (t + ".log")) <==> t == token
  {
    hide Show;
    OneDigit(slot);
    OneDigit(s);
    PrefixDecides("tongs-slot-", Show(slot), Show(s), "-job-" + Show(job) + ("-" + (token + ".log")));
    var front := "tongs-slot-" + (Show(slot) + ("-job-" + Show(job)));
    assert NameText(slot, job, token) == front + ("-" + (token + ".log"));
    SuffixDecides(front, "-" + (token + ".log"), "-" + (t + ".log"));
    assert ("-" + (token + ".log"))[1..33] == token && ("-" + (t + ".log"))[1..33] == t;
  }

  lemma PrefixDecides(front: string, x: string, y: string, rest: string)
    requires |x| == 1 && |y| == 1 && rest != "" && rest[0] == '-'
    ensures front + (y + "-") <= front + (x + rest) <==> x == y
  {
    var long, short := front + (x + rest), front + (y + "-");
    assert long[|front|] == x[0] && short[|front|] == y[0];
    assert x == [x[0]] && y == [y[0]];
    if x == y {
      assert long[..|front| + 2] == short;
    }
  }

  predicate EndsWith(s: string, suffix: string) {
    |suffix| <= |s| && s[|s| - |suffix|..] == suffix
  }

  lemma SuffixDecides(front: string, x: string, y: string)
    requires |x| == |y|
    ensures EndsWith(front + x, y) <==> x == y
  {
    assert (front + x)[|front|..] == x;
  }

  lemma OneDigit(n: nat)
    requires InRange(n)
    ensures |Show(n)| == 1 && Show(n)[0] as int == '0' as int + n
  {}

  // ---------------------------------------------------------------- State

  /** `created` is None where the column holds no finite number. */
  datatype Row = Row(token: string, name: ExportName, created: Option<real>)

  /** A directory entry; one that is no regular file of ours is never removed, another may refuse removal. */
  datatype File = File(owned: bool, mtime: real, removable: bool)

  datatype Ledger = Ledger(rows: map<int, Row>, files: map<ExportName, File>)

  datatype Reservation = Reservation(slot: int, token: string, name: ExportName)

  /** A reservation, no free slot, a token or name that another row already uses, or arguments of no use. */
  datatype Outcome = Reserved(reservation: Reservation) | Full | Duplicate | Invalid

  predicate ValidRow(slot: int, row: Row) {
    && InRange(slot) && IsToken(row.token)
    && row.name.IsExport() && row.name.slot == slot && row.name.token == row.token
    && row.created.Some? && row.created.value >= 0.0
  }

  /** The row test reads the name's text: it begins with this slot's prefix and ends in this token. */
  lemma ValidRowReadsText(slot: int, row: Row)
    requires row.name.IsExport()
    ensures ValidRow(slot, row)
       <==> && InRange(slot) && IsToken(row.token) && row.created.Some? && row.created.value >= 0.0
            && var text := NameText(row.name.slot, row.name.job, row.name.token);
               "tongs-slot-" + (Show(slot) + "-") <= text && EndsWith(text, "-" + (row.token + ".log"))
  {
    hide IsToken, EndsWith, NameText;
    if InRange(slot) && IsToken(row.token) {
      NameTestsAreExact(row.name.slot, row.name.job, row.name.token, slot, row.token);
    }
  }

  // ---------------------------------------------------------------- Reclaiming

  /** `_remove_stale_owned` succeeds: the file is gone, or it is ours, old and can be unlinked. */
  predicate Removes(files: map<ExportName, File>, name: ExportName, staleBefore: real) {
    name in files ==> files[name].owned && files[name].mtime <= staleBefore && files[name].removable
  }

  /** A stale reservation whose file is gone or can go. */
  predicate Freed(l: Ledger, slot: int, staleBefore: real) {
    slot in l.rows && ValidRow(slot, l.rows[slot]) && l.rows[slot].created.value <= staleBefore
    && Removes(l.files, l.rows[slot].name, staleBefore)
  }

  function ReclaimRows(l: Ledger, staleBefore: real): Ledger {
    var freed := set s | s in l.rows && Freed(l, s, staleBefore);
    Ledger(l.rows - freed, l.files - set s | s in freed :: l.rows[s].name)
  }

  /** Names of the well-formed rows, as they were fetched. */
  function Admitted(rows: map<int, Row>): set<ExportName> {
    set s | s in rows && ValidRow(s, rows[s]) :: rows[s].name
  }

  predicate IsOrphan(rows: map<int, Row>, name: ExportName) {
    (name.IsExport() || name.Legacy?) && name !in Admitted(rows)
  }

  function ReclaimOrphans(rows: map<int, Row>, files: map<ExportName, File>, staleBefore: real): map<ExportName, File> {
    map n | n in files && !(IsOrphan(rows, n) && Removes(files, n, staleBefore)) :: files[n]
  }

  /** What is left to hold slots once everything stale has been reclaimed. */
  function Reclaimed(l: Ledger, staleBefore: real): Ledger {
    var mid := ReclaimRows(l, staleBefore);
    Ledger(mid.rows, ReclaimOrphans(l.rows, mid.files, staleBefore))
  }

  /** Slots of the rows that stayed and of the orphans that stayed. */
  function Occupied(l: Ledger, staleBefore: real): set<int> {
    var mid := Reclaimed(l, staleBefore);
    RowSlots(mid.rows) + OrphanSlots(l.rows, mid.files)
  }

  function RowSlots(rows: map<int, Row>): set<int> {
    set s | s in rows && InRange(s)
  }

  function OrphanSlots(rows: map<int, Row>, files: map<ExportName, File>): set<int> {
    set n | n in files && n.IsExport() && IsOrphan(rows, n) :: n.slot
  }

  function UnslottedRows(l: Ledger): set<int> {
    set s | s in l.rows && !InRange(s)
  }

  function LegacyFiles(files: map<ExportName, File>): set<ExportName> {
    set n | n in files && n.Legacy?
  }

  function ExtraHeld(l: Ledger, staleBefore: real): nat {
    |UnslottedRows(l)| + |LegacyFiles(Reclaimed(l, staleBefore).files)|
  }

  function AllSlots(): set<int> {
    {1, 2, 3, 4, 5, 6, 7, 8}
  }

  function Free(l: Ledger, staleBefore: real): set<int> {
    AllSlots() - Occupied(l, staleBefore)
  }

  predicate Taken(rows: map<int, Row>, token: string, name: ExportName) {
    exists s :: s in rows && (rows[s].token == token || rows[s].name == name)
  }

  predicate IsLeast(slot: int, slots: set<int>) {
    slot in slots && forall s :: s in slots ==> slot <= s
  }

  predicate ValidRequest(job: int, token: string, now: real) {
    job > 0 && IsToken(token) && now >= 0.0
  }

  /** What `reserve` does: state afterwards and answer. */
  ghost predicate Reserves(l: Ledger, job: int, token: string, now: real, after: Ledger, outcome: Outcome) {
    var stale := now - STALE_SECONDS;
    var mid := Reclaimed(l, stale);
    var free := Free(l, stale);
    if !ValidRequest(job, token, now) then outcome == Invalid && after == l
    else if |free| <= ExtraHeld(l, stale) then outcome == Full && after == mid
    else
      exists slot :: IsLeast(slot, free)
        && var name := Slotted(slot, job, token);
           if Taken(mid.rows, token, name) then outcome == Duplicate && after == Ledger(l.rows, mid.files)
           else outcome == Reserved(Reservation(slot, token, name))
                && after == Ledger(mid.rows[slot := Row(token, name, Some(now))], mid.files)
  }

  /** Whether `release` succeeds: the row is this reservation's and its file is absent. */
  predicate Releases(l: Ledger, slot: int, token: string) {
    && InRange(slot) && IsToken(token)
    && slot in l.rows && l.rows[slot].token == token
    && l.rows[slot].name.IsExport() && l.rows[slot].name !in l.files
  }

  // ---------------------------------------------------------------- The ledger object

  class EditorExportLedger {
    var rows: map<int, Row>
    var files: map<ExportName, File>

    function View(): Ledger
      reads this
    {
      Ledger(rows, files)
    }

    /** `_remove_stale_owned`. */
    method RemoveStaleOwned(name: ExportName, staleBefore: real) returns (gone: bool)
      modifies this`files
      ensures gone == Removes(old(files), name, staleBefore)
      ensures files == if gone then old(files) - {name} else old(files)
    {
      if name !in files {
        return true;
      }
      if !files[name].owned || files[name].mtime > staleBefore || !files[name].removable {
        return false;
      }
      files := files - {name};
      return true;
    }

    /** `_reclaim_rows`, in any order of the rows. */
    method DoReclaimRows(staleBefore: real) returns (occupied: set<int>, unslotted: nat)
      modifies this
      ensures View() == ReclaimRows(old(View()), staleBefore)
      ensures occupied == RowSlots(rows)
      ensures unslotted == |UnslottedRows(old(View()))|
    {
      ghost var l := View();
      var fetched := rows;
      var rest := fetched.Keys;
      occupied := {};
      var out: set<int> := {};
      while rest != {}
        modifies this
        invariant rest <= fetched.Keys && fetched == l.rows
        invariant forall s :: s in rows <==> s in l.rows && (s in rest || !Freed(l, s, staleBefore))
        invariant forall s :: s in rows ==> rows[s] == l.rows[s]
        invariant forall n :: n in files <==> n in l.files && !RemovedFor(l, n, l.rows.Keys - rest, staleBefore)
        invariant forall n :: n in files ==> files[n] == l.files[n]
        invariant forall s :: s in occupied <==> s in l.rows && s !in rest && InRange(s) && !Freed(l, s, staleBefore)
        invariant forall s :: s in out <==> s in l.rows && s !in rest && !InRange(s)
      {
        SomeMember(rest);
        var s :| s in rest;
        var row := fetched[s];
        rest := rest - {s};
        if !ValidRow(s, row) {
          if InRange(s) {
            occupied := occupied + {s};
          } else {
            out := out + {s};
          }
        } else if row.created.value > staleBefore {
          occupied := occupied + {s};
        } else {
          OwnFileOnly(l, s, rest, staleBefore);
          var gone := RemoveStaleOwned(row.name, staleBefore);
          if gone {
            rows := rows - {s};
          } else {
            occupied := occupied + {s};
          }
        }
      }
      assert forall s :: s in out <==> s in UnslottedRows(l);
      assert forall s :: s in rows <==> s in ReclaimRows(l, staleBefore).rows;
      assert forall s :: s in occupied <==> s in RowSlots(rows);
      assert occupied == RowSlots(rows);
      assert out == UnslottedRows(l);
      unslotted := |out|;
      assert rows == ReclaimRows(l, staleBefore).rows;
      assert files == ReclaimRows(l, staleBefore).files;
    }

    /** `_reclaim_orphans` over the rows as fetched. */
    method DoReclaimOrphans(fetched: map<int, Row>, staleBefore: real) returns (occupied: set<int>, unslotted: nat)
      modifies this`files
      ensures files == ReclaimOrphans(fetched, old(files), staleBefore)
      ensures occupied == OrphanSlots(fetched, files)
      ensures unslotted == |LegacyFiles(files)|
    {
      ghost var before := files;
      var rest := files.Keys;
      occupied := {};
      var out: set<ExportName> := {};
      while rest != {}
        modifies this`files
        invariant rest <= before.Keys
        invariant forall n :: n in files <==>
                    n in before && (n in rest || !(IsOrphan(fetched, n) && Removes(before, n, staleBefore)))
        invariant forall n :: n in files ==> files[n] == before[n]
        invariant occupied
               == set n | n in before && n !in rest && n in files && n.IsExport() && IsOrphan(fetched, n) :: n.slot
        invariant forall n :: n in out <==> n in before && n !in rest && n in files && n.Legacy?
      {
        var n :| n in rest;
        ghost var seen := set x | x in before && x !in rest && x in files && x.IsExport() && IsOrphan(fetched, x);
        rest := rest - {n};
        if IsOrphan(fetched, n) {
          var gone := RemoveStaleOwned(n, staleBefore);
          if !gone {
            if n.Legacy? {
              out := out + {n};
            } else {
              occupied := occupied + {n.slot};
            }
          }
          ghost var now := set x | x in before && x !in rest && x in files && x.IsExport() && IsOrphan(fetched, x);
          assert now == if !gone && !n.Legacy? then seen + {n} else seen;
        } else {
          LegacyIsOrphan(fetched, n);
        }
      }
      assert out == LegacyFiles(files);
      unslotted := |out|;
    }

    /** `reserve`, which runs under the operation lock in one immediate transaction. */
    method Reserve(job: int, token: string, now: real) returns (outcome: Outcome)
      modifies this
      ensures Reserves(old(View()), job, token, now, View(), outcome)
    {
      hide Reclaimed, Occupied, ExtraHeld, ReclaimRows, ReclaimOrphans, Free;
      if !ValidRequest(job, token, now) {
        return Invalid;
      }
      ghost var l := View();
      var staleBefore := now - STALE_SECONDS;
      var fetched := rows;
      var occupied, extra := DoReclaimRows(staleBefore);
      var orphans, held := DoReclaimOrphans(fetched, staleBefore);
      AfterReclaiming(l, staleBefore, View(), occupied, orphans, extra, held);
      occupied := occupied + orphans;
      extra := extra + held;
      var free := AllSlots() - occupied;
      if |free| <= extra {
        return Full;
      }
      var slot := LeastOf(free);
      var name := Slotted(slot, job, token);
      if Taken(rows, token, name) {
        rows := fetched;
        return Duplicate;
      }
      rows := rows[slot := Row(token, name, Some(now))];
      return Reserved(Reservation(slot, token, name));
    }

    /** None is the error for a slot or token that no reservation has. */
    method Release(slot: int, token: string) returns (r: Option<bool>)
      modifies this`rows
      ensures r == if InRange(slot) && IsToken(token) then Some(Releases(old(View()), slot, token)) else None
      ensures rows == if r == Some(true) then old(rows) - {slot} else old(rows)
    {
      if !InRange(slot) || !IsToken(token) {
        return None;
      }
      if slot !in rows || rows[slot].token != token {
        return Some(false);
      }
      if !rows[slot].name.IsExport() || rows[slot].name in files {
        return Some(false);
      }
      rows := rows - {slot};
      return Some(true);
    }
  }

  /** What the two reclaiming passes return is what counts against the slots. */
  lemma AfterReclaiming(l: Ledger, staleBefore: real, after: Ledger, slots: set<int>, orphans: set<int>,
                        unslotted: nat, legacy: nat)
    requires after.rows == ReclaimRows(l, staleBefore).rows
    requires after.files == ReclaimOrphans(l.rows, ReclaimRows(l, staleBefore).files, staleBefore)
    requires slots == RowSlots(after.rows) && orphans == OrphanSlots(l.rows, after.files)
    requires unslotted == |UnslottedRows(l)| && legacy == |LegacyFiles(after.files)|
    ensures after == Reclaimed(l, staleBefore) && slots + orphans == Occupied(l, staleBefore)
    ensures unslotted + legacy == ExtraHeld(l, staleBefore)
    ensures AllSlots() - (slots + orphans) == Free(l, staleBefore)
  {
    hide ReclaimRows, ReclaimOrphans, RowSlots, OrphanSlots, UnslottedRows, LegacyFiles;
  }

  /** The file's row is among `done` and was freed. */
  ghost predicate RemovedFor(l: Ledger, n: ExportName, done: set<int>, staleBefore: real) {
    exists s :: s in done && Freed(l, s, staleBefore) && l.rows[s].name == n
  }

  /** A row's file belongs to no other well-formed row, because the name holds the slot. */
  lemma OwnFileOnly(l: Ledger, s: int, rest: set<int>, staleBefore: real)
    requires s in l.rows && ValidRow(s, l.rows[s]) && s !in rest
    ensures !RemovedFor(l, l.rows[s].name, l.rows.Keys - (rest + {s}), staleBefore)
    ensures forall n :: RemovedFor(l, n, l.rows.Keys - rest, staleBefore) <==>
              RemovedFor(l, n, l.rows.Keys - (rest + {s}), staleBefore)
              || (Freed(l, s, staleBefore) && n == l.rows[s].name)
  {}

  lemma LegacyIsOrphan(rows: map<int, Row>, n: ExportName)
    ensures n.Legacy? ==> IsOrphan(rows, n)
  {}

  lemma SomeMember(slots: set<int>)
    requires slots != {}
    ensures exists s :: s in slots
  {
    assert (forall s :: s !in slots) ==> slots == {};
  }

  method LeastOf(slots: set<int>) returns (least: int)
    requires slots != {}
    ensures IsLeast(least, slots)
  {
    SomeMember(slots);
    least :| least in slots;
    var rest := slots - {least};
    while rest != {}
      invariant rest <= slots && least in slots
      invariant forall s :: s in slots && s !in rest ==> least <= s
    {
      SomeMember(rest);
      var s :| s in rest;
      if s < least {
        least := s;
      }
      rest := rest - {s};
    }
  }

  // ---------------------------------------------------------------- How many slots are held

  /** Slots with a row or with an export file. */
  function HeldSlots(l: Ledger): set<int> {
    RowSlots(l.rows) + (set n | n in l.files && n.IsExport() :: n.slot)
  }

  /** Everything that counts against the bound of eight. */
  function Load(l: Ledger): nat {
    |HeldSlots(l)| + |LegacyFiles(l.files)| + |UnslottedRows(l)|
  }

  lemma SubsetSize<T>(a: set<T>, b: set<T>)
    requires a <= b
    ensures |a| <= |b|
  {
    assert b == a + (b - a);
  }

  /** Fewer rows and files are never a greater load. */
  lemma LoadShrinks(l: Ledger, m: Ledger)
    requires m.rows.Keys <= l.rows.Keys && m.files.Keys <= l.files.Keys
    ensures Load(m) <= Load(l)
  {
    assert forall s :: s in HeldSlots(m) ==> s in HeldSlots(l);
    SubsetSize(HeldSlots(m), HeldSlots(l));
    SubsetSize(LegacyFiles(m.files), LegacyFiles(l.files));
    SubsetSize(UnslottedRows(m), UnslottedRows(l));
  }

  /** After reclaiming, every slot with a row or a file counts as occupied. */
  lemma HeldIsOccupied(l: Ledger, staleBefore: real)
    ensures HeldSlots(Reclaimed(l, staleBefore)) <= Occupied(l, staleBefore)
  {
    var mid := Reclaimed(l, staleBefore);
    forall n | n in mid.files && n.IsExport() ensures n.slot in Occupied(l, staleBefore) {
      if n in Admitted(l.rows) {
        var s :| s in l.rows && ValidRow(s, l.rows[s]) && l.rows[s].name == n;
        assert !Freed(l, s, staleBefore);
        assert s in RowSlots(mid.rows);
      } else {
        assert n.slot in OrphanSlots(l.rows, mid.files);
      }
    }
  }

  lemma OccupiedInRange(l: Ledger, staleBefore: real)
    ensures Occupied(l, staleBefore) <= AllSlots() && |AllSlots()| == MAX_EXPORTS
    ensures |Free(l, staleBefore)| == MAX_EXPORTS - |Occupied(l, staleBefore)|
  {
    hide Reclaimed, OrphanSlots, IsOrphan;
    var occupied := Occupied(l, staleBefore);
    OrphansInRange(l.rows, Reclaimed(l, staleBefore).files);
    forall s | s in occupied ensures s in AllSlots() {
      assert InRange(s);
    }
    assert AllSlots() == occupied + Free(l, staleBefore);
  }

  lemma OrphansInRange(rows: map<int, Row>, files: map<ExportName, File>)
    ensures forall s :: s in OrphanSlots(rows, files) ==> InRange(s)
  {
    hide IsOrphan;
  }

  /** The slot a reservation takes holds neither a row nor a file. */
  lemma FreeSlotIsEmpty(l: Ledger, staleBefore: real, slot: int)
    requires slot in Free(l, staleBefore)
    ensures var mid := Reclaimed(l, staleBefore);
            slot !in mid.rows && forall n :: n in mid.files && n.IsExport() ==> n.slot != slot
  {
    HeldIsOccupied(l, staleBefore);
    OccupiedInRange(l, staleBefore);
    assert InRange(slot);
  }

  /**
   A reservation that is granted leaves at most eight slots held, whatever the state before: rows and
   files that fit no slot count against the free ones. The insert never meets a row of its slot.
   */
  lemma GrantWithinBound(l: Ledger, job: int, token: string, now: real, after: Ledger, outcome: Outcome)
    requires Reserves(l, job, token, now, after, outcome) && outcome.Reserved?
    ensures Load(after) <= MAX_EXPORTS
    ensures var slot := outcome.reservation.slot;
            InRange(slot) && slot !in Reclaimed(l, now - STALE_SECONDS).rows
            && forall n :: n in after.files && n.IsExport() ==> n.slot != slot
  {
    hide Reclaimed, Occupied, Taken, Free, HeldSlots, RowSlots;
    var stale := now - STALE_SECONDS;
    var slot := outcome.reservation.slot;
    var mid := Reclaimed(l, stale);
    FreeSlotIsEmpty(l, stale, slot);
    OccupiedInRange(l, stale);
    HeldIsOccupied(l, stale);
    assert slot in Free(l, stale) && after == Granted(mid, slot, job, token, now);
    FreeInRange(l, stale, slot);
    GrantHolds(mid, slot, job, token, now);
    assert HeldSlots(after) <= Occupied(l, stale) + {slot};
    SubsetSize(HeldSlots(after), Occupied(l, stale) + {slot});
    ReclaimKeepsUnslotted(l, stale);
  }

  lemma FreeInRange(l: Ledger, staleBefore: real, slot: int)
    requires slot in Free(l, staleBefore)
    ensures InRange(slot) && |Occupied(l, staleBefore) + {slot}| == |Occupied(l, staleBefore)| + 1
  {}

  /** The ledger with one more reservation. */
  function Granted(l: Ledger, slot: int, job: nat, token: string, now: real): Ledger {
    Ledger(l.rows[slot := Row(token, Slotted(slot, job, token), Some(now))], l.files)
  }

  lemma GrantHolds(l: Ledger, slot: int, job: nat, token: string, now: real)
    requires InRange(slot)
    ensures HeldSlots(Granted(l, slot, job, token, now)) <= HeldSlots(l) + {slot}
    ensures UnslottedRows(Granted(l, slot, job, token, now)) == UnslottedRows(l)
  {}

  /**
   The job number is not bounded where the reservation is made, yet a name holds 19 digits at most: the
   new row is well formed, and can be released, exactly for job numbers within them. The slot of any
   other job stays held for good.
   */
  lemma GrantIsReleasable(l: Ledger, job: int, token: string, now: real, after: Ledger, outcome: Outcome)
    requires Reserves(l, job, token, now, after, outcome) && outcome.Reserved?
    ensures var slot := outcome.reservation.slot;
            slot in after.rows
            && (ValidRow(slot, after.rows[slot]) <==> job < JOB_LIMIT)
            && (Releases(after, slot, token) <==> job < JOB_LIMIT)
  {
    hide Reclaimed, Occupied, Taken, Free;
    var stale, slot := now - STALE_SECONDS, outcome.reservation.slot;
    FreeSlotIsEmpty(l, stale, slot);
    FreeInRange(l, stale, slot);
  }

  const ZEROS: string := "00000000000000000000000000000000"
  const NO_EXPORTS := Ledger(map[], map[])

  /** An empty ledger grants a job of 20 digits a slot that cannot be released. */
  lemma GrantNeverReleased()
    ensures var name := Slotted(1, JOB_LIMIT, ZEROS);
            var after := Ledger(map[1 := Row(ZEROS, name, Some(0.0))], map[]);
            && Reserves(NO_EXPORTS, JOB_LIMIT, ZEROS, 0.0, after, Reserved(Reservation(1, ZEROS, name)))
            && !Releases(after, 1, ZEROS)
  {
    var stale := 0.0 - STALE_SECONDS;
    assert |ZEROS| == 32 && IsToken(ZEROS);
    assert Reclaimed(NO_EXPORTS, stale) == NO_EXPORTS;
    assert RowSlots(NO_EXPORTS.rows) == {} && OrphanSlots(NO_EXPORTS.rows, NO_EXPORTS.files) == {};
    assert Occupied(NO_EXPORTS, stale) == {} && Free(NO_EXPORTS, stale) == AllSlots();
    assert UnslottedRows(NO_EXPORTS) == {} && LegacyFiles(NO_EXPORTS.files) == {};
    assert IsLeast(1, AllSlots());
    OccupiedInRange(NO_EXPORTS, stale);
    var name := Slotted(1, JOB_LIMIT, ZEROS);
    var after := Ledger(map[1 := Row(ZEROS, name, Some(0.0))], map[]);
    GrantIsReleasable(NO_EXPORTS, JOB_LIMIT, ZEROS, 0.0, after, Reserved(Reservation(1, ZEROS, name)));
  }

  /** A row that no release and no reclaiming accepts stays through every reservation. */
  lemma MalformedStays(l: Ledger, slot: int, job: int, token: string, now: real, after: Ledger, outcome: Outcome)
    requires slot in l.rows && InRange(slot) && !ValidRow(slot, l.rows[slot])
    requires Reserves(l, job, token, now, after, outcome)
    ensures slot in after.rows && after.rows[slot] == l.rows[slot]
  {
    hide ReclaimOrphans, Taken;
    if outcome.Reserved? {
      assert slot in Occupied(l, now - STALE_SECONDS);
    }
  }

  lemma ReclaimKeepsUnslotted(l: Ledger, staleBefore: real)
    ensures UnslottedRows(Reclaimed(l, staleBefore)) == UnslottedRows(l)
  {
    forall s ensures s in UnslottedRows(Reclaimed(l, staleBefore)) <==> s in UnslottedRows(l) {}
  }

  lemma ReclaimShrinks(l: Ledger, staleBefore: real)
    ensures var mid := Reclaimed(l, staleBefore); mid.rows.Keys <= l.rows.Keys && mid.files.Keys <= l.files.Keys
  {}

  // ---------------------------------------------------------------- What a reservation reclaims

  /** A file of ours, not touched for a day, that can be unlinked. */
  predicate CanGo(file: File, now: real) {
    file.owned && file.removable && file.mtime <= now - 86400.0
  }

  /** Well formed, at least a day old, and without a file that must stay. */
  predicate RowCanGo(l: Ledger, s: int, now: real)
    requires s in l.rows
  {
    && ValidRow(s, l.rows[s]) && l.rows[s].created.value <= now - 86400.0
    && (l.rows[s].name in l.files ==> CanGo(l.files[l.rows[s].name], now))
  }

  /**
   A row goes exactly when it is well formed, at least a day old, and its file is absent or can go; every
   other row stays as it was. A failed insert takes no row away.
   */
  lemma RowsReclaimed(l: Ledger, job: int, token: string, now: real, after: Ledger, outcome: Outcome, s: int)
    requires Reserves(l, job, token, now, after, outcome) && s in l.rows
    ensures s !in after.rows || after.rows[s] != l.rows[s]
       <==> (outcome.Full? || outcome.Reserved?) && RowCanGo(l, s, now)
    ensures outcome.Reserved? && outcome.reservation.slot == s ==> RowCanGo(l, s, now)
  {
    hide Occupied, Taken, ReclaimOrphans;
    if outcome.Reserved? {
      FreeSlotIsEmpty(l, now - STALE_SECONDS, outcome.reservation.slot);
    }
  }

  /**
   A file goes exactly when it is an export or from before slots, can go, and no well-formed row younger
   than a day names it; every other file stays as it was, and none is made.
   */
  lemma FilesReclaimed(l: Ledger, job: int, token: string, now: real, after: Ledger, outcome: Outcome, n: ExportName)
    requires Reserves(l, job, token, now, after, outcome)
    ensures n in after.files ==> n in l.files && after.files[n] == l.files[n]
    ensures n in l.files ==>
              (n !in after.files
               <==> && !outcome.Invalid? && (n.IsExport() || n.Legacy?) && CanGo(l.files[n], now)
                    && !exists s :: s in l.rows && ValidRow(s, l.rows[s]) && l.rows[s].name == n
                                    && l.rows[s].created.value > now - 86400.0)
  {
    hide Occupied, Taken;
    var stale := now - STALE_SECONDS;
    if n in l.files && CanGo(l.files[n], now) && n in Admitted(l.rows) {
      var s :| s in l.rows && ValidRow(s, l.rows[s]) && l.rows[s].name == n;
      OnlyRowOf(l, n, s);
      assert Freed(l, s, stale) <==> l.rows[s].created.value <= stale;
    }
  }

  /** No two well-formed rows have one name, because the name holds the slot. */
  lemma OnlyRowOf(l: Ledger, n: ExportName, s: int)
    requires s in l.rows && ValidRow(s, l.rows[s]) && l.rows[s].name == n
    ensures forall t :: t in l.rows && ValidRow(t, l.rows[t]) && l.rows[t].name == n ==> t == s
  {}

  /** After reclaiming, the occupied slots are exactly those with a row or a file. */
  lemma OccupiedIsHeld(l: Ledger, staleBefore: real)
    ensures HeldSlots(Reclaimed(l, staleBefore)) == Occupied(l, staleBefore)
    ensures |Free(l, staleBefore)| <= ExtraHeld(l, staleBefore)
       <==> Load(Reclaimed(l, staleBefore)) >= MAX_EXPORTS
  {
    hide Reclaimed;
    HeldIsOccupied(l, staleBefore);
    OccupiedInRange(l, staleBefore);
    ReclaimKeepsUnslotted(l, staleBefore);
    assert Occupied(l, staleBefore) <= HeldSlots(Reclaimed(l, staleBefore));
  }

  /** It is refused for what its arguments are, and for want of a slot only when eight are still held. */
  lemma RefusedWhenFull(l: Ledger, job: int, token: string, now: real, after: Ledger, outcome: Outcome)
    requires Reserves(l, job, token, now, after, outcome)
    ensures outcome.Invalid? <==> job <= 0 || !IsToken(token) || now < 0.0
    ensures outcome.Full? ==> Load(after) >= MAX_EXPORTS
    ensures outcome.Duplicate? ==> exists s :: s in l.rows && (l.rows[s].token == token
                                                               || (l.rows[s].name.Slotted?
                                                                   && l.rows[s].name.token == token))
  {
    hide Reclaimed, Occupied, ExtraHeld, Load, Free, IsToken, IsLeast;
    OccupiedIsHeld(l, now - STALE_SECONDS);
    RowsOnly(l, now - STALE_SECONDS);
  }

  /** The slot granted is the lowest that is not held, under a token no other row has. */
  lemma GrantIsLowest(l: Ledger, job: int, token: string, now: real, after: Ledger, outcome: Outcome)
    requires Reserves(l, job, token, now, after, outcome) && outcome.Reserved?
    ensures var r := outcome.reservation;
            var others := after.(rows := after.rows - {r.slot});
            && r == Reservation(r.slot, token, Slotted(r.slot, job, token)) && InRange(r.slot)
            && r.slot in after.rows && after.rows[r.slot] == Row(token, r.name, Some(now))
            && Load(others) < MAX_EXPORTS && r.slot !in HeldSlots(others)
            && (forall s :: 1 <= s < r.slot ==> s in HeldSlots(others))
            && (forall s :: s in others.rows ==> others.rows[s].token != token)
  {
    hide Reclaimed, Occupied, ExtraHeld, Load, IsToken, HeldSlots, Taken, Free;
    var stale, slot := now - STALE_SECONDS, outcome.reservation.slot;
    var mid := Reclaimed(l, stale);
    OccupiedIsHeld(l, stale);
    FreeSlotIsEmpty(l, stale, slot);
    FreeIsNotHeld(l, stale, slot);
    assert after.rows - {slot} == mid.rows;
    assert after.(rows := after.rows - {slot}) == mid;
    NotTaken(mid.rows, token, Slotted(slot, job, token));
  }

  lemma NotTaken(rows: map<int, Row>, token: string, name: ExportName)
    requires !Taken(rows, token, name)
    ensures forall s :: s in rows ==> rows[s].token != token
  {}

  lemma FreeIsNotHeld(l: Ledger, staleBefore: real, slot: int)
    requires IsLeast(slot, Free(l, staleBefore))
    ensures InRange(slot) && slot !in HeldSlots(Reclaimed(l, staleBefore))
    ensures forall s :: 1 <= s < slot ==> s in HeldSlots(Reclaimed(l, staleBefore))
  {
    hide Reclaimed, Occupied, HeldSlots;
    OccupiedIsHeld(l, staleBefore);
    FreeInRange(l, staleBefore, slot);
    forall s | 1 <= s < slot ensures s in Occupied(l, staleBefore) {
      assert s in AllSlots() && s !in Free(l, staleBefore);
    }
  }

  lemma RowsOnly(l: Ledger, staleBefore: real)
    ensures var mid := Reclaimed(l, staleBefore); forall s :: s in mid.rows ==> s in l.rows && mid.rows[s] == l.rows[s]
  {}

  // ---------------------------------------------------------------- Runs

  /** What can happen: the two operations, and what the editor and the user do to the directory. */
  datatype Action =
    | DoReserve(job: int, token: string, now: real, outcome: Outcome)
    | DoRelease(slot: int, token: string, released: bool)
    | CreateFile(slot: int, file: File)     // the export is written under a live row's own name
    | ChangeFile(name: ExportName, file: File)
    | DeleteFile(name: ExportName)

  /** The ledger, and every grant and successful release so far. */
  datatype State = State(ledger: Ledger, grants: multiset<(int, string)>, releases: multiset<(int, string)>)

  /** The name is for this slot, as every reservation's is, whether or not the row is well formed. */
  predicate OwnName(slot: int, row: Row) {
    row.name.Slotted? && row.name.slot == slot
  }

  ghost predicate Step(s: State, a: Action, t: State) {
    match a
    case DoReserve(job, token, now, outcome) =>
      && Reserves(s.ledger, job, token, now, t.ledger, outcome) && t.releases == s.releases
      && t.grants == if outcome.Reserved? then s.grants + multiset{(outcome.reservation.slot, token)} else s.grants
    case DoRelease(slot, token, released) =>
      && released == Releases(s.ledger, slot, token) && t.grants == s.grants
      && t.ledger == (if released then s.ledger.(rows := s.ledger.rows - {slot}) else s.ledger)
      && t.releases == if released then s.releases + multiset{(slot, token)} else s.releases
    case CreateFile(slot, file) =>
      && slot in s.ledger.rows && OwnName(slot, s.ledger.rows[slot])
      && t == s.(ledger := s.ledger.(files := s.ledger.files[s.ledger.rows[slot].name := file]))
    case ChangeFile(name, file) =>
      name in s.ledger.files && t == s.(ledger := s.ledger.(files := s.ledger.files[name := file]))
    case DeleteFile(name) => t == s.(ledger := s.ledger.(files := s.ledger.files - {name}))
  }

  ghost predicate Run(s: State, actions: seq<Action>, t: State)
    decreases |actions|
  {
    if actions == [] then s == t else exists u :: Step(s, actions[0], u) && Run(u, actions[1..], t)
  }

  /** No slot has two files, and a live row's slot has none but its own. */
  ghost predicate OneFilePerSlot(l: Ledger) {
    && (forall m, n :: m in l.files && n in l.files && m.IsExport() && n.IsExport() && m.slot == n.slot ==> m == n)
    && (forall s, n :: s in l.rows && OwnName(s, l.rows[s]) && n in l.files && n.IsExport() && n.slot == s ==>
          n == l.rows[s].name)
  }

  lemma ReserveKeepsFiles(l: Ledger, job: int, token: string, now: real, after: Ledger, outcome: Outcome)
    requires OneFilePerSlot(l) && Reserves(l, job, token, now, after, outcome)
    ensures OneFilePerSlot(after)
  {
    hide Occupied, Taken;
    var stale := now - STALE_SECONDS;
    var mid := Reclaimed(l, stale);
    assert forall n :: n in mid.files ==> n in l.files;
    assert forall s :: s in mid.rows ==> s in l.rows && mid.rows[s] == l.rows[s];
    if outcome.Reserved? {
      FreeSlotIsEmpty(l, stale, outcome.reservation.slot);
    }
  }

  /**
   A release succeeds exactly when the slot's row has this token and a well-formed name and no export file
   is there for the slot; then nothing holds the slot any more.
   */
  lemma ReleaseFreesSlot(l: Ledger, slot: int, token: string)
    requires OneFilePerSlot(l) && OwnNames(l)
    ensures Releases(l, slot, token)
       <==> && InRange(slot) && IsToken(token) && slot in l.rows && l.rows[slot].token == token
            && l.rows[slot].name.IsExport() && !exists n :: n in l.files && n.IsExport() && n.slot == slot
    ensures Releases(l, slot, token) ==> slot !in HeldSlots(l.(rows := l.rows - {slot}))
  {
    hide IsToken;
  }

  lemma StepKeepsFiles(s: State, a: Action, t: State)
    requires OneFilePerSlot(s.ledger) && Step(s, a, t)
    ensures OneFilePerSlot(t.ledger)
  {
    hide Reserves;
    match a {
      case DoReserve(job, token, now, outcome) => ReserveKeepsFiles(s.ledger, job, token, now, t.ledger, outcome);
      case _ =>
    }
  }

  /** Every row's name is for its own slot, so a file can be created under any row. */
  ghost predicate OwnNames(l: Ledger) {
    forall s :: s in l.rows ==> OwnName(s, l.rows[s])
  }

  lemma StepKeepsNames(s: State, a: Action, t: State)
    requires OwnNames(s.ledger) && Step(s, a, t)
    ensures OwnNames(t.ledger)
  {
    hide Occupied, Taken, ReclaimOrphans;
  }

  /**
   Rows stand in range, and a file whose name is no export's, for a job of 20 digits, stays under the row
   it was created for.
   */
  ghost predicate FilesHeld(l: Ledger) {
    && (forall s :: s in l.rows ==> InRange(s))
    && (forall n :: n in l.files && n.Slotted? && !n.IsExport() ==> n.slot in l.rows && l.rows[n.slot].name == n)
  }

  lemma ReserveHoldsFiles(l: Ledger, job: int, token: string, now: real, after: Ledger, outcome: Outcome)
    requires FilesHeld(l) && Reserves(l, job, token, now, after, outcome)
    ensures FilesHeld(after)
  {
    hide Occupied, Taken, ReclaimOrphans;
    var stale := now - STALE_SECONDS;
    var mid := Reclaimed(l, stale);
    OrphansOnly(l, stale);
    assert forall s :: s in l.rows && !ValidRow(s, l.rows[s]) ==> s in mid.rows;
    if outcome.Reserved? {
      FreeSlotIsEmpty(l, stale, outcome.reservation.slot);
      FreeInRange(l, stale, outcome.reservation.slot);
    }
  }

  lemma OrphansOnly(l: Ledger, staleBefore: real)
    ensures forall n :: n in Reclaimed(l, staleBefore).files ==> n in l.files
  {}

  lemma StepHoldsFiles(s: State, a: Action, t: State)
    requires FilesHeld(s.ledger) && OwnNames(s.ledger) && Step(s, a, t)
    ensures FilesHeld(t.ledger)
  {
    hide Reserves;
    match a {
      case DoReserve(job, token, now, outcome) => ReserveHoldsFiles(s.ledger, job, token, now, t.ledger, outcome);
      case _ =>
    }
  }

  /** Every file that is named for a slot, whatever its job number. */
  function SlotFiles(files: map<ExportName, File>): set<ExportName> {
    set n | n in files && n.Slotted?
  }

  /** Files named for different slots are no more than those slots. */
  lemma {:induction false} FilesPerSlot(names: set<ExportName>, slots: set<int>)
    requires forall n :: n in names ==> n.Slotted? && n.slot in slots
    requires forall m, n :: m in names && n in names && m.slot == n.slot ==> m == n
    ensures |names| <= |slots|
    decreases |names|
  {
    if names != {} {
      var n :| n in names;
      FilesPerSlot(names - {n}, slots - {n.slot});
    }
  }

  /** At most eight export files exist when at most eight are held. */
  lemma FilesWithinLoad(l: Ledger)
    requires OneFilePerSlot(l) && OwnNames(l) && FilesHeld(l)
    ensures |SlotFiles(l.files)| + |LegacyFiles(l.files)| <= Load(l)
  {
    var names := SlotFiles(l.files);
    forall n | n in names ensures n.slot in HeldSlots(l) {
      assert !n.IsExport() ==> n.slot in RowSlots(l.rows);
    }
    FilesPerSlot(names, HeldSlots(l));
  }

  lemma ReserveLoad(l: Ledger, job: int, token: string, now: real, after: Ledger, outcome: Outcome)
    requires Reserves(l, job, token, now, after, outcome)
    ensures Load(after) <= Load(l) || Load(after) <= MAX_EXPORTS
  {
    hide Reclaimed, Free, Load, Taken, ExtraHeld;
    if outcome.Reserved? {
      GrantWithinBound(l, job, token, now, after, outcome);
    } else {
      ReclaimShrinks(l, now - STALE_SECONDS);
      LoadShrinks(l, after);
    }
  }

  /** No step makes the load both larger than it was and larger than eight. */
  lemma StepLoad(s: State, a: Action, t: State)
    requires Step(s, a, t)
    ensures Load(t.ledger) <= Load(s.ledger) || Load(t.ledger) <= MAX_EXPORTS
  {
    hide Reserves, Load;
    match a {
      case DoReserve(job, token, now, outcome) => ReserveLoad(s.ledger, job, token, now, t.ledger, outcome);
      case DoRelease(_, _, _) => LoadShrinks(s.ledger, t.ledger);
      case CreateFile(slot, file) => CreateLoad(s.ledger, slot, file);
      case ChangeFile(_, _) => LoadShrinks(s.ledger, t.ledger);
      case DeleteFile(_) => LoadShrinks(s.ledger, t.ledger);
    }
  }

  lemma CreateLoad(l: Ledger, slot: int, file: File)
    requires slot in l.rows && OwnName(slot, l.rows[slot])
    ensures Load(l.(files := l.files[l.rows[slot].name := file])) == Load(l)
  {
    var m := l.(files := l.files[l.rows[slot].name := file]);
    forall s ensures s in HeldSlots(m) <==> s in HeldSlots(l) {
      assert l.rows[slot].name.IsExport() ==> slot in RowSlots(l.rows);
    }
    assert HeldSlots(m) == HeldSlots(l);
    assert LegacyFiles(m.files) == LegacyFiles(l.files);
    assert UnslottedRows(m) == UnslottedRows(l);
  }

  function Present(l: Ledger, slot: int, token: string): nat {
    if slot in l.rows && l.rows[slot].token == token then 1 else 0
  }

  /** Releases of a reservation never outnumber its grants. */
  ghost predicate Accounted(s: State, slot: int, token: string) {
    s.releases[(slot, token)] + Present(s.ledger, slot, token) <= s.grants[(slot, token)]
  }

  lemma ReservePresent(l: Ledger, job: int, token: string, now: real, after: Ledger, outcome: Outcome, slot: int,
          t: string)
    requires Reserves(l, job, token, now, after, outcome)
    ensures Present(after, slot, t) <= Present(l, slot, t)
            || (outcome.Reserved? && slot == outcome.reservation.slot && t == token)
  {
    hide Occupied, Taken, ReclaimOrphans;
  }

  lemma StepAccounted(s: State, a: Action, t: State, slot: int, token: string)
    requires Accounted(s, slot, token) && Step(s, a, t)
    ensures Accounted(t, slot, token)
  {
    hide Reserves;
    match a {
      case DoReserve(job, tok, now, outcome) =>
        ReservePresent(s.ledger, job, tok, now, t.ledger, outcome, slot, token);
      case _ =>
    }
  }

  /** The invariants carry over every run. */
  lemma {:induction false} RunKeeps(s: State, actions: seq<Action>, t: State, slot: int, token: string)
    requires Run(s, actions, t) && OneFilePerSlot(s.ledger) && Load(s.ledger) <= MAX_EXPORTS
    requires Accounted(s, slot, token) && OwnNames(s.ledger) && FilesHeld(s.ledger)
    ensures OwnNames(t.ledger) && FilesHeld(t.ledger) && OneFilePerSlot(t.ledger) && Load(t.ledger) <= MAX_EXPORTS
    ensures Accounted(t, slot, token)
    decreases |actions|
  {
    hide Step, Load, OneFilePerSlot, Accounted, OwnNames, FilesHeld;
    if actions != [] {
      var u :| Step(s, actions[0], u) && Run(u, actions[1..], t);
      StepKeepsNames(s, actions[0], u);
      StepHoldsFiles(s, actions[0], u);
      StepKeepsFiles(s, actions[0], u);
      StepLoad(s, actions[0], u);
      StepAccounted(s, actions[0], u, slot, token);
      RunKeeps(u, actions[1..], t, slot, token);
    }
  }

  const EMPTY := State(Ledger(map[], map[]), multiset{}, multiset{})

  /**
   Over every run from an empty directory, in which files are created only under a live row's own name: at
   most eight slots, legacy files and stray rows are ever held, no slot has two files, and a reservation
   is released at most as often as it was granted. At most eight export files ever exist, those for jobs
   of 20 digits and those from before slots included. Every row names its own slot, so no row is left out.
   */
  lemma LedgerBound(actions: seq<Action>, t: State, slot: int, token: string)
    requires Run(EMPTY, actions, t)
    ensures Load(t.ledger) <= MAX_EXPORTS && OneFilePerSlot(t.ledger) && OwnNames(t.ledger)
    ensures |SlotFiles(t.ledger.files)| + |LegacyFiles(t.ledger.files)| <= MAX_EXPORTS
    ensures t.releases[(slot, token)] <= t.grants[(slot, token)]
  {
    hide Run;
    assert HeldSlots(EMPTY.ledger) == {} && LegacyFiles(EMPTY.ledger.files) == {} && UnslottedRows(EMPTY.ledger) == {};
    RunKeeps(EMPTY, actions, t, slot, token);
    FilesWithinLoad(t.ledger);
  }

  /** Neither released nor, a day later, up for reclaiming. */
  ghost predicate LeavesAlone(a: Action, slot: int, token: string, made: real) {
    && (a.DoReserve? ==> a.now < made + 86400.0)
    && (a.DoRelease? ==> !(a.slot == slot && a.token == token && a.released))
  }

  lemma StepLeaves(s: State, a: Action, t: State, slot: int, row: Row)
    requires Step(s, a, t) && slot in s.ledger.rows && s.ledger.rows[slot] == row && row.created.Some?
    requires LeavesAlone(a, slot, row.token, row.created.value)
    ensures slot in t.ledger.rows && t.ledger.rows[slot] == row
    ensures a.DoReserve? && a.outcome.Reserved? ==> a.outcome.reservation.slot != slot
  {
    hide Reserves;
    match a {
      case DoReserve(job, token, now, outcome) =>
        RowsReclaimed(s.ledger, job, token, now, t.ledger, outcome, slot);
      case _ =>
    }
  }

  /**
   A reservation younger than a day that was not released still stands after any run, whether or not its
   file has been written, and its slot has been granted to nobody else.
   */
  lemma {:induction false} FreshReservationStands(s: State, actions: seq<Action>, t: State, slot: int, row: Row)
    requires Run(s, actions, t) && slot in s.ledger.rows && s.ledger.rows[slot] == row && row.created.Some?
    requires forall k :: 0 <= k < |actions| ==> LeavesAlone(actions[k], slot, row.token, row.created.value)
    ensures slot in t.ledger.rows && t.ledger.rows[slot] == row
    ensures forall k :: 0 <= k < |actions| && actions[k].DoReserve? && actions[k].outcome.Reserved? ==>
              actions[k].outcome.reservation.slot != slot
    decreases |actions|
  {
    hide Step, LeavesAlone;
    if actions != [] {
      var u :| Step(s, actions[0], u) && Run(u, actions[1..], t);
      StepLeaves(s, actions[0], u, slot, row);
      FreshReservationStands(u, actions[1..], t, slot, row);
      assert forall k :: 1 <= k < |actions| ==> actions[k] == actions[1..][k - 1];
    }
  }

  /** From any directory at all, an excess can only shrink: no run raises the load above eight. */
  lemma {:induction false} LoadNeverGrows(s: State, actions: seq<Action>, t: State)
    requires Run(s, actions, t)
    ensures Load(t.ledger) <= Load(s.ledger) || Load(t.ledger) <= MAX_EXPORTS
    decreases |actions|
  {
    hide Step, Load;
    if actions != [] {
      var u :| Step(s, actions[0], u) && Run(u, actions[1..], t);
      StepLoad(s, actions[0], u);
      LoadNeverGrows(u, actions[1..], t);
    }
  }
}
