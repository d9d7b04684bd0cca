/** The `models` table: one row per (processor, name) with the circuit-breaker
    state of that model (when its suspension ends, how often it has failed and
    the last error seen). The table is a sequence of rows in insertion order;
    (processor, name) is its primary key, which `KeysUnique` states. The
    functions here are the effect of the three statements the bot runs on the
    table: listing the available models, the failure upsert and the
    register-if-absent insert. */
module ModelRegistry {
  import opened Common

  /** A failed model stays suspended for 24 hours, counted in seconds. */
  const SuspensionSeconds: int := 24 * 60 * 60

  datatype ModelRow = ModelRow(
    processor: string,
    name: string,
    suspendedUntil: Option<int>,
    errorCounter: nat,
    lastError: Option<string>)

  /** One failure seen by the fallback loop: the model and its error text. */
  datatype Failure = Failure(model: string, error: string)

  predicate HasKey(row: ModelRow, processor: string, name: string) {
    row.processor == processor && row.name == name
  }

  /** The primary key (processor, name) identifies at most one row. */
  ghost predicate KeysUnique(rows: seq<ModelRow>) {
    forall i, j :: 0 <= i < j < |rows| ==> !HasKey(rows[j], rows[i].processor, rows[i].name)
  }

  /** `suspended_until IS NULL OR suspended_until < now`. */
  predicate IsAvailable(row: ModelRow, now: int) {
    row.suspendedUntil.None? || row.suspendedUntil.value < now
  }

  /** The row with key (processor, name), if any. */
  function Find(rows: seq<ModelRow>, processor: string, name: string): (r: Option<ModelRow>)
    ensures r.Some? ==> r.value in rows && HasKey(r.value, processor, name)
    ensures r.None? ==> forall i :: 0 <= i < |rows| ==> !HasKey(rows[i], processor, name)
  {
    if rows == [] then None
    else if HasKey(rows[0], processor, name) then Some(rows[0])
    else Find(rows[1..], processor, name)
  }

  /** Under the primary key, any row carrying the key is the one `Find` returns. */
  lemma {:induction false} FindUnique(rows: seq<ModelRow>, i: int, processor: string, name: string)
    requires KeysUnique(rows)
    requires 0 <= i < |rows| && HasKey(rows[i], processor, name)
    ensures Find(rows, processor, name) == Some(rows[i])
  {
    if i > 0 {
      assert !HasKey(rows[i], rows[0].processor, rows[0].name);
      FindUnique(rows[1..], i - 1, processor, name);
    }
  }

  /** The error counter of a row that may be missing; a missing row counts 0. */
  function CounterOf(row: Option<ModelRow>): nat {
    if row.Some? then row.value.errorCounter else 0
  }

  /** The row a failure upsert leaves behind for the failing model. */
  function Bumped(found: Option<ModelRow>, processor: string, name: string, error: string, now: int): ModelRow {
    ModelRow(processor, name, Some(now + SuspensionSeconds), CounterOf(found) + 1, Some(error))
  }

  // ---------------------------------------------------------------------
  // suspend_model: insert the row with counter 1, or on a key conflict set
  // the suspension and last error and add one to the counter.
  // ---------------------------------------------------------------------

  function Suspend(rows: seq<ModelRow>, processor: string, name: string, error: string, now: int): seq<ModelRow>
  {
    if rows == [] then [Bumped(None, processor, name, error, now)]
    else if HasKey(rows[0], processor, name) then [Bumped(Some(rows[0]), processor, name, error, now)] + rows[1..]
    else [rows[0]] + Suspend(rows[1..], processor, name, error, now)
  }

  /** The upsert adds a row exactly when the model had none. */
  lemma {:induction false} SuspendSize(rows: seq<ModelRow>, processor: string, name: string, error: string, now: int)
    ensures |Suspend(rows, processor, name, error, now)| == if Find(rows, processor, name).Some? then |rows| else |rows| + 1
  {
    if rows != [] && !HasKey(rows[0], processor, name) {
      SuspendSize(rows[1..], processor, name, error, now);
    }
  }

  /** After a failure the model is suspended until now + 24h, its counter is one
      more than before (1 for a new row) and its last error is the new one. */
  lemma {:induction false} SuspendFind(rows: seq<ModelRow>, processor: string, name: string, error: string, now: int)
    ensures Find(Suspend(rows, processor, name, error, now), processor, name)
            == Some(Bumped(Find(rows, processor, name), processor, name, error, now))
  {
    if rows != [] && !HasKey(rows[0], processor, name) {
      SuspendFind(rows[1..], processor, name, error, now);
    }
  }

  /** A failure upsert leaves every other key's row as it was. */
  lemma {:induction false} SuspendOthers(rows: seq<ModelRow>, processor: string, name: string, error: string, now: int,
                                         p: string, m: string)
    requires !(p == processor && m == name)
    ensures Find(Suspend(rows, processor, name, error, now), p, m) == Find(rows, p, m)
  {
    if rows != [] && !HasKey(rows[0], processor, name) {
      SuspendOthers(rows[1..], processor, name, error, now, p, m);
    }
  }

  /** Every row of the result is a row of the table or the upserted row. */
  lemma {:induction false} SuspendRows(rows: seq<ModelRow>, processor: string, name: string, error: string, now: int)
    ensures forall r :: r in Suspend(rows, processor, name, error, now) ==>
              r in rows || r == Bumped(Find(rows, processor, name), processor, name, error, now)
  {
    if rows != [] && !HasKey(rows[0], processor, name) {
      SuspendRows(rows[1..], processor, name, error, now);
    }
  }

  /** The failure upsert keeps the primary key unique. */
  lemma {:induction false} SuspendKeysUnique(rows: seq<ModelRow>, processor: string, name: string, error: string, now: int)
    requires KeysUnique(rows)
    ensures KeysUnique(Suspend(rows, processor, name, error, now))
  {
    var r := Suspend(rows, processor, name, error, now);
    if rows == [] {
    } else if HasKey(rows[0], processor, name) {
      forall i, j | 0 <= i < j < |r| ensures !HasKey(r[j], r[i].processor, r[i].name) {
        assert r[j] == rows[j];
        if i > 0 { assert r[i] == rows[i]; }
      }
    } else {
      var rest := Suspend(rows[1..], processor, name, error, now);
      SuspendKeysUnique(rows[1..], processor, name, error, now);
      SuspendRows(rows[1..], processor, name, error, now);
      forall j | 0 <= j < |rest| ensures !HasKey(rest[j], rows[0].processor, rows[0].name) {
        assert rest[j] in rest;
        if rest[j] in rows[1..] {
          var k :| 0 <= k < |rows[1..]| && rows[1..][k] == rest[j];
          assert rows[k + 1] == rest[j];
        }
      }
      assert r == [rows[0]] + rest;
    }
  }

  /** Applies the failures of one fallback run in the order they happened. */
  function SuspendAll(rows: seq<ModelRow>, processor: string, failures: seq<Failure>, now: int): (r: seq<ModelRow>)
  {
    if failures == [] then rows
    else
      var last := failures[|failures| - 1];
      Suspend(SuspendAll(rows, processor, failures[..|failures| - 1], now), processor, last.model, last.error, now)
  }

  /** A run of upserts removes no row and adds at most one per failure. */
  lemma {:induction false} SuspendAllSize(rows: seq<ModelRow>, processor: string, failures: seq<Failure>, now: int)
    ensures |rows| <= |SuspendAll(rows, processor, failures, now)| <= |rows| + |failures|
  {
    if failures != [] {
      var n := |failures| - 1;
      SuspendAllSize(rows, processor, failures[..n], now);
      SuspendSize(SuspendAll(rows, processor, failures[..n], now), processor, failures[n].model, failures[n].error, now);
    }
  }

  /** One more failure is one more upsert, applied last. */
  lemma SuspendAllStep(rows: seq<ModelRow>, processor: string, failures: seq<Failure>, f: Failure, now: int)
    ensures SuspendAll(rows, processor, failures + [f], now)
            == Suspend(SuspendAll(rows, processor, failures, now), processor, f.model, f.error, now)
  {
    assert (failures + [f])[..|failures|] == failures;
  }

  /** The error the failure list records for `model`, taking the latest one. */
  function ErrorFor(failures: seq<Failure>, model: string): Option<string>
  {
    if failures == [] then None
    else if failures[|failures| - 1].model == model then Some(failures[|failures| - 1].error)
    else ErrorFor(failures[..|failures| - 1], model)
  }

  /** The models named by a failure list. */
  function FailedModels(failures: seq<Failure>): seq<string> {
    seq(|failures|, i requires 0 <= i < |failures| => failures[i].model)
  }

  /** When each model fails at most once in a run, each failed model is
      suspended once (counter up by exactly one) and every other row of the
      processor keeps its state; rows of other processors are the subject of
      `SuspendAllOtherProcessor`. */
  lemma {:induction false} SuspendAllFind(rows: seq<ModelRow>, processor: string, failures: seq<Failure>, now: int, name: string)
    requires NoDuplicates(FailedModels(failures))
    ensures Find(SuspendAll(rows, processor, failures, now), processor, name)
            == if ErrorFor(failures, name).Some?
               then Some(Bumped(Find(rows, processor, name), processor, name, ErrorFor(failures, name).value, now))
               else Find(rows, processor, name)
  {
    if failures != [] {
      var n := |failures| - 1;
      var prefix := failures[..n];
      assert FailedModels(prefix) == FailedModels(failures)[..n];
      SuspendAllFind(rows, processor, prefix, now, name);
      var before := SuspendAll(rows, processor, prefix, now);
      if failures[n].model == name {
        SuspendFind(before, processor, name, failures[n].error, now);
        assert name !in FailedModels(prefix) by {
          forall k | 0 <= k < |FailedModels(prefix)| ensures FailedModels(prefix)[k] != name {
            assert FailedModels(failures)[k] != FailedModels(failures)[n];
          }
        }
        NotFailedBefore(prefix, name);
      } else {
        SuspendOthers(before, processor, failures[n].model, failures[n].error, now, processor, name);
      }
    }
  }

  /** A run of upserts for one processor leaves every row of another processor
      as it was. */
  lemma {:induction false} SuspendAllOtherProcessor(rows: seq<ModelRow>, processor: string, failures: seq<Failure>,
                                                    now: int, p: string, name: string)
    requires p != processor
    ensures Find(SuspendAll(rows, processor, failures, now), p, name) == Find(rows, p, name)
  {
    if failures != [] {
      var n := |failures| - 1;
      SuspendAllOtherProcessor(rows, processor, failures[..n], now, p, name);
      SuspendOthers(SuspendAll(rows, processor, failures[..n], now), processor, failures[n].model, failures[n].error, now, p, name);
    }
  }

  /** In a duplicate-free failure list the last entry's model has no earlier entry. */
  lemma NotFailedBefore(prefix: seq<Failure>, name: string)
    requires name !in FailedModels(prefix)
    ensures ErrorFor(prefix, name).None?
  {
    if prefix != [] {
      var n := |prefix| - 1;
      assert FailedModels(prefix[..n]) == FailedModels(prefix)[..n];
      assert FailedModels(prefix)[n] == prefix[n].model;
      NotFailedBefore(prefix[..n], name);
    }
  }

  /** The failure upserts of a run keep the primary key unique. */
  lemma {:induction false} SuspendAllKeysUnique(rows: seq<ModelRow>, processor: string, failures: seq<Failure>, now: int)
    requires KeysUnique(rows)
    ensures KeysUnique(SuspendAll(rows, processor, failures, now))
  {
    if failures != [] {
      var n := |failures| - 1;
      SuspendAllKeysUnique(rows, processor, failures[..n], now);
      SuspendKeysUnique(SuspendAll(rows, processor, failures[..n], now), processor, failures[n].model, failures[n].error, now);
    }
  }

  // ---------------------------------------------------------------------
  // add_model: INSERT OR IGNORE of a fresh row (no suspension, counter 0).
  // ---------------------------------------------------------------------

  function Register(rows: seq<ModelRow>, processor: string, name: string): (r: seq<ModelRow>)
    ensures |r| == if Find(rows, processor, name).Some? then |rows| else |rows| + 1
  {
    if rows == [] then [ModelRow(processor, name, None, 0, None)]
    else if HasKey(rows[0], processor, name) then rows
    else [rows[0]] + Register(rows[1..], processor, name)
  }

  /** Registering a model that is already in the table changes nothing. */
  lemma {:induction false} RegisterKeepsExisting(rows: seq<ModelRow>, processor: string, name: string)
    requires Find(rows, processor, name).Some?
    ensures Register(rows, processor, name) == rows
  {
    if !HasKey(rows[0], processor, name) {
      RegisterKeepsExisting(rows[1..], processor, name);
    }
  }

  /** After registering, the model has a row: the old one if it existed, else a
      fresh, unsuspended row with counter 0; other keys are untouched. */
  lemma {:induction false} RegisterFind(rows: seq<ModelRow>, processor: string, name: string, p: string, m: string)
    ensures Find(Register(rows, processor, name), p, m)
            == if p == processor && m == name && Find(rows, p, m).None?
               then Some(ModelRow(processor, name, None, 0, None))
               else Find(rows, p, m)
  {
    if rows != [] && !HasKey(rows[0], processor, name) {
      RegisterFind(rows[1..], processor, name, p, m);
    }
  }

  /** Registering twice is the same as registering once. */
  lemma RegisterIdempotent(rows: seq<ModelRow>, processor: string, name: string)
    ensures Register(Register(rows, processor, name), processor, name) == Register(rows, processor, name)
  {
    RegisterFind(rows, processor, name, processor, name);
    RegisterKeepsExisting(Register(rows, processor, name), processor, name);
  }

  /** Registering keeps the primary key unique. */
  lemma {:induction false} RegisterKeysUnique(rows: seq<ModelRow>, processor: string, name: string)
    requires KeysUnique(rows)
    ensures KeysUnique(Register(rows, processor, name))
  {
    if rows != [] && !HasKey(rows[0], processor, name) {
      var rest := Register(rows[1..], processor, name);
      RegisterKeysUnique(rows[1..], processor, name);
      RegisterRows(rows[1..], processor, name);
      forall j | 0 <= j < |rest| ensures !HasKey(rest[j], rows[0].processor, rows[0].name) {
        assert rest[j] in rest;
        if rest[j] in rows[1..] {
          var k :| 0 <= k < |rows[1..]| && rows[1..][k] == rest[j];
          assert rows[k + 1] == rest[j];
        }
      }
      assert Register(rows, processor, name) == [rows[0]] + rest;
    }
  }

  /** Every row after registering is an old row or the fresh one. */
  lemma {:induction false} RegisterRows(rows: seq<ModelRow>, processor: string, name: string)
    ensures forall r :: r in Register(rows, processor, name) ==> r in rows || r == ModelRow(processor, name, None, 0, None)
  {
    if rows != [] && !HasKey(rows[0], processor, name) {
      RegisterRows(rows[1..], processor, name);
    }
  }

  // ---------------------------------------------------------------------
  // get_available_models: filter by processor and availability, then
  // ORDER BY error_counter ASC.
  // ---------------------------------------------------------------------

  /** Under the primary key, the rows after the first are keyed uniquely and
      none of them shares the first row's key. */
  lemma KeysUniqueTail(rows: seq<ModelRow>)
    requires KeysUnique(rows) && rows != []
    ensures KeysUnique(rows[1..])
    ensures forall x :: x in rows[1..] ==> !HasKey(x, rows[0].processor, rows[0].name)
  {
    forall i, j | 0 <= i < j < |rows[1..]| ensures !HasKey(rows[1..][j], rows[1..][i].processor, rows[1..][i].name) {
      assert rows[1..][i] == rows[i + 1] && rows[1..][j] == rows[j + 1];
    }
    forall x | x in rows[1..] ensures !HasKey(x, rows[0].processor, rows[0].name) {
      var k :| 0 <= k < |rows[1..]| && rows[1..][k] == x;
      assert rows[k + 1] == x;
    }
  }

  /** Rows of `processor` that are available at `now`, in table order. */
  function Candidates(rows: seq<ModelRow>, processor: string, now: int): (r: seq<ModelRow>)
    ensures forall x :: x in r <==> x in rows && x.processor == processor && IsAvailable(x, now)
    ensures KeysUnique(rows) ==> KeysUnique(r)
  {
    if rows == [] then []
    else
      var rest := Candidates(rows[1..], processor, now);
      assert KeysUnique(rows) ==> forall j :: 0 <= j < |rest| ==> !HasKey(rest[j], rows[0].processor, rows[0].name) by {
        if KeysUnique(rows) {
          KeysUniqueTail(rows);
          forall j | 0 <= j < |rest| ensures !HasKey(rest[j], rows[0].processor, rows[0].name) {
            assert rest[j] in rest;
          }
        }
      }
      if rows[0].processor == processor && IsAvailable(rows[0], now) then [rows[0]] + rest else rest
  }

  ghost predicate SortedByErrors(rows: seq<ModelRow>) {
    forall i, j :: 0 <= i < j < |rows| ==> rows[i].errorCounter <= rows[j].errorCounter
  }

  /** There are never more available rows than rows. */
  lemma {:induction false} CandidatesSize(rows: seq<ModelRow>, processor: string, now: int)
    ensures |Candidates(rows, processor, now)| <= |rows|
  {
    if rows != [] {
      CandidatesSize(rows[1..], processor, now);
    }
  }

  /** Inserts `row` before the first row with an equal or larger counter. */
  function InsertByErrors(row: ModelRow, sorted: seq<ModelRow>): (r: seq<ModelRow>)
    ensures multiset(r) == multiset(sorted) + multiset{row}
    ensures |r| == |sorted| + 1
    ensures r[0] == row || (sorted != [] && r[0] == sorted[0])
  {
    if sorted == [] || row.errorCounter <= sorted[0].errorCounter then [row] + sorted
    else
      assert sorted == [sorted[0]] + sorted[1..];
      [sorted[0]] + InsertByErrors(row, sorted[1..])
  }

  /** Inserting into a sorted list keeps it sorted. */
  lemma {:induction false} InsertKeepsSorted(row: ModelRow, sorted: seq<ModelRow>)
    requires SortedByErrors(sorted)
    ensures SortedByErrors(InsertByErrors(row, sorted))
  {
    if sorted == [] || row.errorCounter <= sorted[0].errorCounter {
      SortedCons(row, sorted);
    } else {
      var rest := InsertByErrors(row, sorted[1..]);
      InsertKeepsSorted(row, sorted[1..]);
      SortedCons(sorted[0], rest);
    }
  }

  /** A row no larger than the head of a sorted list can go in front of it. */
  lemma SortedCons(row: ModelRow, sorted: seq<ModelRow>)
    requires SortedByErrors(sorted)
    requires sorted == [] || row.errorCounter <= sorted[0].errorCounter
    ensures SortedByErrors([row] + sorted)
  {
    var r := [row] + sorted;
    forall i, j | 0 <= i < j < |r| ensures r[i].errorCounter <= r[j].errorCounter {
      if i > 0 {
        assert r[i] == sorted[i - 1] && r[j] == sorted[j - 1];
      } else {
        assert r[j] == sorted[j - 1];
      }
    }
  }

  /** Insertion sort by error counter; rows with equal counters keep table order. */
  function SortByErrors(rows: seq<ModelRow>): (r: seq<ModelRow>)
    ensures SortedByErrors(r)
    ensures multiset(r) == multiset(rows)
  {
    if rows == [] then []
    else
      assert rows == [rows[0]] + rows[1..];
      InsertKeepsSorted(rows[0], SortByErrors(rows[1..]));
      InsertByErrors(rows[0], SortByErrors(rows[1..]))
  }

  /** The rows that `get_available_models` reads, in the order it returns them. */
  function AvailableRows(rows: seq<ModelRow>, processor: string, now: int): seq<ModelRow>
  {
    SortByErrors(Candidates(rows, processor, now))
  }

  /** `get_available_models(processor)` at time `now`. */
  function AvailableModels(rows: seq<ModelRow>, processor: string, now: int): (r: seq<string>)
    ensures |r| == |Candidates(rows, processor, now)|
  {
    var sorted := AvailableRows(rows, processor, now);
    assert |sorted| == |multiset(sorted)| == |multiset(Candidates(rows, processor, now))|;
    seq(|sorted|, i requires 0 <= i < |sorted| => sorted[i].name)
  }

  /** A name is listed exactly when a row of that processor with that name is
      unsuspended or its suspension has ended before `now`. */
  lemma AvailableModelsMembers(rows: seq<ModelRow>, processor: string, now: int, name: string)
    ensures name in AvailableModels(rows, processor, now)
            <==> exists i :: 0 <= i < |rows| && HasKey(rows[i], processor, name) && IsAvailable(rows[i], now)
  {
    var sorted := AvailableRows(rows, processor, now);
    var names := AvailableModels(rows, processor, now);
    if name in names {
      var k :| 0 <= k < |names| && names[k] == name;
      AvailableRowsMembers(rows, processor, now, sorted[k]);
      var i :| 0 <= i < |rows| && rows[i] == sorted[k];
      assert HasKey(rows[i], processor, name);
    }
    if exists i :: 0 <= i < |rows| && HasKey(rows[i], processor, name) && IsAvailable(rows[i], now) {
      var i :| 0 <= i < |rows| && HasKey(rows[i], processor, name) && IsAvailable(rows[i], now);
      AvailableRowsMembers(rows, processor, now, rows[i]);
      var k :| 0 <= k < |sorted| && sorted[k] == rows[i];
      assert names[k] == name;
    }
  }

  /** The rows listed are exactly the available rows of the processor. */
  lemma AvailableRowsMembers(rows: seq<ModelRow>, processor: string, now: int, x: ModelRow)
    ensures x in AvailableRows(rows, processor, now) <==> x in rows && x.processor == processor && IsAvailable(x, now)
  {
    var cands := Candidates(rows, processor, now);
    var sorted := AvailableRows(rows, processor, now);
    assert x in sorted <==> x in multiset(sorted);
    assert x in cands <==> x in multiset(cands);
  }

  /** Sorting keeps the primary key unique. */
  lemma SortKeepsKeysUnique(rows: seq<ModelRow>, sorted: seq<ModelRow>)
    requires KeysUnique(rows)
    requires multiset(sorted) == multiset(rows)
    ensures KeysUnique(sorted)
  {
    forall i, j | 0 <= i < j < |sorted|
      ensures !HasKey(sorted[j], sorted[i].processor, sorted[i].name)
    {
      if HasKey(sorted[j], sorted[i].processor, sorted[i].name) {
        assert sorted[i] in multiset(rows) && sorted[j] in multiset(rows);
        var a :| 0 <= a < |rows| && rows[a] == sorted[i];
        var b :| 0 <= b < |rows| && rows[b] == sorted[j];
        assert a == b;
        // the same row sits at two positions of `sorted`, but only once in `rows`
        MultiplicityTwo(sorted, i, j);
        MultiplicityOne(rows, a);
        assert false;
      }
    }
  }

  /** An element found at two positions occurs at least twice. */
  lemma MultiplicityTwo<T>(s: seq<T>, i: int, j: int)
    requires 0 <= i < j < |s| && s[i] == s[j]
    ensures multiset(s)[s[i]] >= 2
  {
    assert s == s[..j] + s[j..];
    assert s[i] in s[..j];
    assert s[j] in s[j..];
    assert multiset(s) == multiset(s[..j]) + multiset(s[j..]);
  }

  /** Under the primary key, each row occurs once. */
  lemma {:induction false} MultiplicityOne(rows: seq<ModelRow>, a: int)
    requires KeysUnique(rows)
    requires 0 <= a < |rows|
    ensures multiset(rows)[rows[a]] == 1
  {
    var x := rows[a];
    assert rows == [rows[0]] + rows[1..];
    assert multiset(rows) == multiset{rows[0]} + multiset(rows[1..]);
    KeysUniqueTail(rows);
    if a == 0 {
      assert x !in rows[1..] by {
        assert HasKey(x, rows[0].processor, rows[0].name);
      }
      assert x !in multiset(rows[1..]);
    } else {
      assert rows[a] == rows[1..][a - 1];
      MultiplicityOne(rows[1..], a - 1);
      assert rows[0] != x by {
        assert !HasKey(rows[a], rows[0].processor, rows[0].name);
      }
    }
  }

  /** Under the primary key the available list names each model once. */
  lemma AvailableModelsDistinct(rows: seq<ModelRow>, processor: string, now: int)
    requires KeysUnique(rows)
    ensures NoDuplicates(AvailableModels(rows, processor, now))
  {
    var cands := Candidates(rows, processor, now);
    var sorted := AvailableRows(rows, processor, now);
    var names := AvailableModels(rows, processor, now);
    SortKeepsKeysUnique(cands, sorted);
    forall i, j | 0 <= i < j < |names| ensures names[i] != names[j] {
      assert sorted[i] in multiset(sorted) && sorted[j] in multiset(sorted);
      assert sorted[i].processor == processor && sorted[j].processor == processor;
    }
  }

  /** The list is ordered by non-decreasing error counter of each model's row. */
  lemma AvailableModelsSorted(rows: seq<ModelRow>, processor: string, now: int)
    requires KeysUnique(rows)
    ensures var names := AvailableModels(rows, processor, now);
            forall i, j :: 0 <= i < j < |names| ==>
              CounterOf(Find(rows, processor, names[i])) <= CounterOf(Find(rows, processor, names[j]))
  {
    var sorted := AvailableRows(rows, processor, now);
    var names := AvailableModels(rows, processor, now);
    forall i | 0 <= i < |names| ensures Find(rows, processor, names[i]) == Some(sorted[i]) {
      assert sorted[i] in multiset(sorted);
      assert sorted[i] in Candidates(rows, processor, now);
      var a :| 0 <= a < |rows| && rows[a] == sorted[i];
      FindUnique(rows, a, processor, names[i]);
    }
  }

  /** After a failure the model is not listed at any time up to the end of its
      suspension (the comparison is strict: at exactly that time it is still out). */
  lemma SuspendHides(rows: seq<ModelRow>, processor: string, name: string, error: string, now: int, later: int)
    requires KeysUnique(rows)
    requires later <= now + SuspensionSeconds
    ensures name !in AvailableModels(Suspend(rows, processor, name, error, now), processor, later)
  {
    var after := Suspend(rows, processor, name, error, now);
    SuspendKeysUnique(rows, processor, name, error, now);
    SuspendFind(rows, processor, name, error, now);
    AvailableModelsMembers(after, processor, later, name);
    forall i | 0 <= i < |after| && HasKey(after[i], processor, name)
      ensures !IsAvailable(after[i], later)
    {
      FindUnique(after, i, processor, name);
    }
  }

  /** Once the suspension has ended the model is listed again. */
  lemma SuspendExpires(rows: seq<ModelRow>, processor: string, name: string, error: string, now: int, later: int)
    requires now + SuspensionSeconds < later
    ensures name in AvailableModels(Suspend(rows, processor, name, error, now), processor, later)
  {
    var after := Suspend(rows, processor, name, error, now);
    SuspendFind(rows, processor, name, error, now);
    var row := Bumped(Find(rows, processor, name), processor, name, error, now);
    assert row in after;
    var i :| 0 <= i < |after| && after[i] == row;
    AvailableModelsMembers(after, processor, later, name);
  }
}
