/** AlphaNumCodeManager (alphanum_code/core.py): it validates its
    configuration against the `codes` table, and each `next_code` call reads
    the last record, computes the next code and appends one record. The
    table is modelled by the class Store; the SQL engine, the session and
    the clock are not (the timestamp is a parameter). */
module CodeManager {
  import opened Wrappers
  import opened Errors
  import opened CodeArithmetic

  /** A row of the `codes` table (core.py:108-114). */
  datatype Record = Record(id: nat, code: string, date: string, info: Option<string>)

  /** The table's own guarantees: `id` autoincrements from 1 in insertion
      order (core.py:111) and `code` is unique (core.py:112). */
  predicate WellFormed(rows: seq<Record>) {
    && (forall k :: 0 <= k < |rows| ==> rows[k].id == k + 1)
    && (forall j, k :: 0 <= j < k < |rows| ==> rows[j].code != rows[k].code)
  }

  /** On a well-formed table both `id` and `code` are keys: a row is
      determined by either of them. */
  lemma KeyColumns(rows: seq<Record>)
    requires WellFormed(rows)
    ensures forall x, y :: x in rows && y in rows && x.id == y.id ==> x == y
    ensures forall x, y :: x in rows && y in rows && x.code == y.code ==> x == y
  {
    forall x, y | x in rows && y in rows && x.code == y.code
      ensures x == y
    {
      var j :| 0 <= j < |rows| && rows[j] == x;
      var k :| 0 <= k < |rows| && rows[k] == y;
      assert j == k;
    }
  }

  predicate Stored(rows: seq<Record>, code: string) {
    exists k :: 0 <= k < |rows| && rows[k].code == code
  }

  /** `_get_last_record`: the first row ordered by id descending, or None on
      an empty table (core.py:78-85). */
  function LastRecord(rows: seq<Record>): (r: Option<Record>)
    requires WellFormed(rows)
    ensures r.None? <==> rows == []
    ensures r.Some? ==> r.value in rows && forall x :: x in rows ==> x.id <= r.value.id
  {
    if rows == [] then None else Some(rows[|rows| - 1])
  }

  /** `AlphaNumCodeManager.Alphabet[0] * self.code_size` (core.py:41):
      Python's string repetition gives "" for a count of zero or less. */
  function Repeat(c: char, n: int): (s: string)
    decreases n
    ensures |s| == if n > 0 then n else 0
    ensures forall k :: 0 <= k < |s| ==> s[k] == c
  {
    if n <= 0 then [] else Repeat(c, n - 1) + [c]
  }

  /** The default init_code is the code of value zero. */
  lemma {:induction false} DefaultInitIsZero(n: int)
    ensures IsCode(Repeat(Zero, n)) && Value(Repeat(Zero, n)) == 0
    decreases n
  {
    if n > 0 {
      DefaultInitIsZero(n - 1);
      var s := Repeat(Zero, n);
      assert s[..|s| - 1] == Repeat(Zero, n - 1);
    }
  }

  /** The checks of `__init__` (core.py:38-46, 52-55): the effective
      init_code, or the ValueError raised. The check on the last record is
      the intended one, comparing the length of its code; ConfigureAsWritten
      is the code as written. */
  function Configure(codeSize: int, initCode: Option<string>, last: Option<Record>): (r: Result<string, Error>)
    ensures initCode.Some? ==> (r == Failure(InitCodeSizeMismatch) <==> |initCode.value| != codeSize)
    ensures initCode.None? ==> (r == Failure(InitCodeSizeMismatch) <==> codeSize < 0)
    ensures r == Failure(StoredCodeSizeMismatch) <==>
      r != Failure(InitCodeSizeMismatch) && last.Some? && |last.value.code| != codeSize
    ensures r.Success? || r == Failure(InitCodeSizeMismatch) || r == Failure(StoredCodeSizeMismatch)
    ensures r.Success? ==> |r.value| == codeSize
    ensures r.Success? && initCode.Some? ==> r.value == initCode.value
    ensures r.Success? && initCode.None? ==> forall k :: 0 <= k < |r.value| ==> r.value[k] == Zero
  {
    var init := if initCode.None? then Repeat(Zero, codeSize) else initCode.value;
    if |init| != codeSize then Failure(InitCodeSizeMismatch)
    else if last.Some? && |last.value.code| != codeSize then Failure(StoredCodeSizeMismatch)
    else Success(init)
  }

  /** The same checks as core.py:52-55 are written: `len(last_record)` is
      applied to the record object, which has no length, so Python raises
      TypeError whenever the table is not empty. */
  function ConfigureAsWritten(codeSize: int, initCode: Option<string>, last: Option<Record>): (r: Result<string, Error>)
    ensures last.Some? ==> r.Failure?
  {
    var init := if initCode.None? then Repeat(Zero, codeSize) else initCode.value;
    if |init| != codeSize then Failure(InitCodeSizeMismatch)
    else if last.Some? then Failure(RecordHasNoLength)
    else Success(init)
  }

  /** As written, reopening any non-empty table fails, even one whose codes
      have exactly the configured width; the intended check accepts it. */
  lemma ReopenFailsAsWritten(codeSize: int, initCode: Option<string>, last: Record)
    requires initCode.Some? ==> |initCode.value| == codeSize
    requires codeSize >= 0 && |last.code| == codeSize
    ensures ConfigureAsWritten(codeSize, initCode, Some(last)) == Failure(RecordHasNoLength)
    ensures Configure(codeSize, initCode, Some(last)).Success?
  {
  }

  /** What `next_code` returns or raises on a table holding `rows`
      (core.py:96-104): init_code if the table is empty, otherwise the
      successor of the last code, and IntegrityError if that code is stored. */
  function Issue(rows: seq<Record>, initCode: string): (r: Result<string, Error>)
    ensures rows == [] ==> r == Success(initCode)
    ensures r.Success? ==> !Stored(rows, r.value)
    ensures r == Failure(DuplicateCode) <==>
      rows != [] && Successor(rows[|rows| - 1].code).Success? && Stored(rows, Successor(rows[|rows| - 1].code).value)
    ensures rows != [] && Successor(rows[|rows| - 1].code).Failure? ==> r == Successor(rows[|rows| - 1].code)
    ensures rows != [] && Successor(rows[|rows| - 1].code).Success? ==>
      (r == Successor(rows[|rows| - 1].code) <==> !Stored(rows, Successor(rows[|rows| - 1].code).value))
  {
    var next := if rows == [] then Success(initCode) else Successor(rows[|rows| - 1].code);
    if next.Success? && Stored(rows, next.value) then Failure(DuplicateCode) else next
  }

  /** Each code is the successor of the one issued before it, which is how
      rows accumulate through `next_code` alone. */
  ghost predicate Chained(rows: seq<Record>) {
    forall k :: 0 <= k < |rows| - 1 ==> Successor(rows[k].code) == Success(rows[k + 1].code)
  }

  /** On a chained table record k holds the code of value Value(first) + k,
      all of the same width. */
  lemma {:induction false} ChainedValues(rows: seq<Record>)
    requires Chained(rows) && |rows| > 0 && IsCode(rows[0].code)
    ensures forall k :: 0 <= k < |rows| ==>
      IsCode(rows[k].code) && |rows[k].code| == |rows[0].code| && Value(rows[k].code) == Value(rows[0].code) + k
    decreases |rows|
  {
    if |rows| > 1 {
      var front := rows[..|rows| - 1];
      assert Chained(front);
      ChainedValues(front);
      var m := |rows| - 2;
      assert rows[m] == front[m];
      SuccessorValue(rows[m].code);
    }
  }

  /** The codes of a chained table are pairwise distinct (core.py:112 never
      has to reject one). */
  lemma ChainedDistinct(rows: seq<Record>)
    requires Chained(rows)
    ensures forall j, k :: 0 <= j < k < |rows| ==> rows[j].code != rows[k].code
  {
    if |rows| > 1 {
      assert Successor(rows[0].code) == Success(rows[1].code);
      ChainedValues(rows);
    }
  }

  /** A chained table of width n starting at value v holds at most 36^n - v
      records: the capacity of the code space. */
  lemma ChainCapacity(rows: seq<Record>)
    requires Chained(rows) && |rows| > 0 && IsCode(rows[0].code)
    ensures |rows| <= Pow(AlphabetSize, |rows[0].code|) - Value(rows[0].code)
  {
    ChainedValues(rows);
    var last := rows[|rows| - 1].code;
    assert Value(last) < Pow(AlphabetSize, |last|);
  }

  /** On a chained table `next_code` never meets the unique constraint, and
      the row it appends keeps the table chained. */
  lemma IssueExtendsChain(rows: seq<Record>, initCode: string, date: string, info: Option<string>)
    requires Chained(rows)
    ensures Issue(rows, initCode) == if rows == [] then Success(initCode) else Successor(rows[|rows| - 1].code)
    ensures Issue(rows, initCode).Success? ==>
      Chained(rows + [Record(|rows| + 1, Issue(rows, initCode).value, date, info)])
  {
    if rows != [] {
      var last := rows[|rows| - 1].code;
      var next := Successor(last);
      if next.Success? {
        assert IsCode(rows[0].code) by {
          if |rows| > 1 {
            assert Successor(rows[0].code) == Success(rows[1].code);
          } else {
            assert rows[0].code == last;
          }
        }
        ChainedValues(rows);
        SuccessorValue(last);
        forall k | 0 <= k < |rows| ensures rows[k].code != next.value {
          assert Value(rows[k].code) < Value(next.value);
        }
      }
    }
  }

  /** A `next_code` call on a chained table leaves it chained, whether it
      appends a row or fails. */
  lemma IssueKeepsChain(before: seq<Record>, after: seq<Record>, initCode: string,
                        r: Result<string, Error>, date: string, info: Option<string>)
    requires r == Issue(before, initCode)
    requires after == if r.Success? then before + [Record(|before| + 1, r.value, date, info)] else before
    ensures Chained(before) ==> Chained(after) && r != Failure(DuplicateCode)
  {
    if Chained(before) {
      IssueExtendsChain(before, initCode, date, info);
    }
  }

  /** Starting from init_code on an empty table, call k + 1 issues the code of
      value Value(init_code) + k, until "Last code reached" (core.py:96-105
      with core.py:66-76). */
  lemma IssueOnChain(rows: seq<Record>, initCode: string)
    requires Chained(rows) && |rows| > 0 && rows[0].code == initCode
    requires IsCode(initCode) && |initCode| > 0
    ensures var v := Value(initCode) + |rows|;
      && (v < Pow(AlphabetSize, |initCode|) ==>
            Issue(rows, initCode).Success? &&
            |Issue(rows, initCode).value| == |initCode| &&
            IsCode(Issue(rows, initCode).value) &&
            Value(Issue(rows, initCode).value) == v)
      && (v >= Pow(AlphabetSize, |initCode|) ==> Issue(rows, initCode) == Failure(LastCodeReached))
  {
    ChainedValues(rows);
    ChainCapacity(rows);
    var last := rows[|rows| - 1].code;
    IssueExtendsChain(rows, initCode, "", None);
    SuccessorSucceeds(last);
    SuccessorValue(last);
    if Value(initCode) + |rows| >= Pow(AlphabetSize, |initCode|) {
      SuccessorExhausted(last);
    }
  }

  /** Only the stored rows decide what a later `next_code` issues: a manager
      reopened on a non-empty table carries on where the last one stopped,
      whatever init_code it was given. */
  lemma IssueIgnoresInitCode(rows: seq<Record>, a: string, b: string)
    requires rows != []
    ensures Issue(rows, a) == Issue(rows, b)
  {
  }

  /** The `codes` table. */
  class Store {
    var rows: seq<Record>

    ghost predicate Valid()
      reads this
    {
      WellFormed(rows)
    }

    /** A table that already holds `rows` (empty for a new database). */
    constructor(rows: seq<Record>)
      requires WellFormed(rows)
      ensures Valid() && this.rows == rows
    {
      this.rows := rows;
    }

    /** `session.add` and `session.commit` of one new row (core.py:102-104):
        the unique constraint rejects a stored code and the failed commit
        leaves the table as it was. */
    method Insert(code: string, date: string, info: Option<string>) returns (r: Result<nat, Error>)
      requires Valid()
      modifies this
      ensures Valid()
      ensures r == if Stored(old(rows), code) then Failure(DuplicateCode) else Success(|old(rows)| + 1)
      ensures rows == if r.Success? then old(rows) + [Record(|old(rows)| + 1, code, date, info)] else old(rows)
    {
      if exists k :: 0 <= k < |rows| && rows[k].code == code {
        return Failure(DuplicateCode);
      }
      rows := rows + [Record(|rows| + 1, code, date, info)];
      r := Success(|rows|);
    }
  }

  class AlphaNumCodeManager {
    const store: Store
    const codeSize: int
    const initCode: string

    /** What `__init__` established and `next_code` keeps: the init_code and
        the last stored code have code_size characters. */
    ghost predicate Valid()
      reads this, store
    {
      && store.Valid()
      && |initCode| == codeSize
      && (store.rows != [] ==> |store.rows[|store.rows| - 1].code| == codeSize)
    }

    /** The state `__init__` leaves once its checks have passed; Open makes them. */
    constructor(store: Store, codeSize: int, initCode: string)
      requires store.Valid() && |initCode| == codeSize
      requires store.rows != [] ==> |store.rows[|store.rows| - 1].code| == codeSize
      ensures Valid()
      ensures this.store == store && this.codeSize == codeSize && this.initCode == initCode
    {
      this.store := store;
      this.codeSize := codeSize;
      this.initCode := initCode;
    }

    /** `AlphaNumCodeManager(dbname, code_size, init_code)` (core.py:35-55):
        a manager on `store`, or the ValueError the constructor raises. */
    static method Open(store: Store, codeSize: int := 4, initCode: Option<string> := None) returns (r: Result<AlphaNumCodeManager, Error>)
      requires store.Valid()
      ensures var config := Configure(codeSize, initCode, LastRecord(store.rows));
        && (r.Success? <==> config.Success?)
        && (r.Failure? ==> r.error == config.error)
        && (r.Success? ==>
              && fresh(r.value) && r.value.Valid()
              && r.value.store == store && r.value.codeSize == codeSize
              && r.value.initCode == config.value)
    {
      var config := Configure(codeSize, initCode, LastRecord(store.rows));
      if config.Failure? {
        return Failure(config.error);
      }
      var manager := new AlphaNumCodeManager(store, codeSize, config.value);
      r := Success(manager);
    }

    /** `next_code(info)` (core.py:87-105), with `date` standing for
        `datetime.datetime.now().isoformat()` and `info` defaulting to None
        as in the source: appends exactly one row on
        success and none on failure. */
    method NextCode(date: string, info: Option<string> := None) returns (r: Result<string, Error>)
      requires Valid()
      modifies store
      ensures Valid()
      ensures r == Issue(old(store.rows), initCode)
      ensures store.rows ==
        if r.Success? then old(store.rows) + [Record(|old(store.rows)| + 1, r.value, date, info)]
        else old(store.rows)
      ensures old(Chained(store.rows)) ==> Chained(store.rows) && r != Failure(DuplicateCode)
    {
      ghost var before := store.rows;
      var last := LastRecord(store.rows);
      var next;
      if last.None? {
        next := Success(initCode);
      } else {
        next := CalculateNextCode(last.value.code, codeSize);
      }
      assert next == if before == [] then Success(initCode) else Successor(before[|before| - 1].code);
      if next.Failure? {
        r := next;
      } else {
        var inserted := store.Insert(next.value, date, info);
        if inserted.Failure? {
          assert Stored(before, next.value);
          r := Failure(inserted.error);
        } else {
          r := next;
        }
      }
      IssueKeepsChain(before, store.rows, initCode, r, date, info);
    }
  }

  /** What `next_code` and `__init__` decide on the tables of RestartScenario. */
  lemma RestartExamples(r1: Record, r2: Record)
    requires r1.code == "0000" && r2.code == "0001"
    ensures Configure(4, None, None) == Success("0000")
    ensures Issue([], "0000") == Success("0000")
    ensures Issue([r1], "0000") == Success("0001")
    ensures Issue([r1, r2], "0000") == Success("0002")
    ensures Configure(4, None, Some(r2)) == Success("0000")
    ensures Configure(5, None, Some(r2)) == Failure(StoredCodeSizeMismatch)
  {
    CountingExamples();
    assert Repeat(Zero, 4) == "0000";
    assert !Stored([r1], "0001");
    assert !Stored([r1, r2], "0002");
  }

  /** A new table with the default width 4: the first two calls issue
      "0000" and "0001". */
  method FirstRun() returns (store: Store)
    ensures fresh(store) && store.Valid()
    ensures store.rows == [Record(1, "0000", "2024-01-01T00:00:00", Some("with comment")),
                           Record(2, "0001", "2024-01-01T00:00:01", None)]
  {
    store := new Store([]);
    var created := AlphaNumCodeManager.Open(store);
    assert Configure(4, None, None) == Success("0000") by {
      assert Repeat(Zero, 4) == "0000";
    }
    var manager := created.value;
    IssueFirstTwo(manager);
  }

  /** The first two `next_code` calls of a manager on an empty table. */
  method IssueFirstTwo(manager: AlphaNumCodeManager)
    requires manager.Valid() && manager.store.rows == [] && manager.initCode == "0000"
    modifies manager.store
    ensures manager.store.Valid()
    ensures manager.store.rows == [Record(1, "0000", "2024-01-01T00:00:00", Some("with comment")),
                                   Record(2, "0001", "2024-01-01T00:00:01", None)]
  {
    var r1 := Record(1, "0000", "2024-01-01T00:00:00", Some("with comment"));
    var r2 := Record(2, "0001", "2024-01-01T00:00:01", None);
    RestartExamples(r1, r2);
    var first := manager.NextCode("2024-01-01T00:00:00", Some("with comment"));
    assert manager.store.rows == [r1];
    var second := manager.NextCode("2024-01-01T00:00:01");
    assert second == Success("0001");
  }

  /** A manager reopened on the table of FirstRun carries on with "0002";
      one opened with width 5 is refused. */
  method RestartScenario() {
    var store := FirstRun();
    RestartExamples(store.rows[0], store.rows[1]);
    var reopened := AlphaNumCodeManager.Open(store);
    assert reopened.Success?;
    var third := reopened.value.NextCode("2024-01-02T00:00:00");
    assert third == Success("0002");
    var wider := AlphaNumCodeManager.Open(store, 5);
    assert wider == Failure(StoredCodeSizeMismatch);
  }
}
