# alphanum_code: a verified model of the code-sequence engine

`AlphaNumCodeManager` hands out fixed-width alphanumeric codes (`0000`,
`0001`, … `000Z`, `0010`, …). Each code is stored in a `codes` table
together with a timestamp and optional free text, so that the sequence is
meant to carry on across restarts (as written, reopening a non-empty table
fails; see "## Findings"). This project models the manager in `alphanum_code/core.py`
and proves properties of the model:

- **Sequence arithmetic** (`code_arithmetic.dfy`, module `CodeArithmetic`).
  - A code is a string over the 36-symbol alphabet `0-9A-Z`.
  - `Value` reads a code as a big-endian base-36 number.
  - `Successor` is the reference meaning of `_calculate_next_code`.
  - `CalculateNextCode` is the method itself. Like the source, it holds the
    digits least significant first and updates positions `i` and `i + 1` in
    place inside a `while` loop. It is proved equal to `Successor`.
  - Lemmas show what `Successor` means:
    - the value goes up by one, and the width and alphabet are kept;
    - the carry changes only the trailing run of `Z`s and the digit to its left;
    - "Last code reached" happens exactly at the all-`Z` code, whose value is 36^n - 1;
    - codes of equal width and equal value are equal;
    - on codes of equal width, string order and number order agree.
- **Manager** (`code_manager.dfy`, module `CodeManager`).
  - The class `Store` is the `codes` table. Ids count up from 1 and codes are
    unique. A failed insert leaves the table unchanged.
  - The class `AlphaNumCodeManager` has `Open` (the checks in `__init__`)
    and `NextCode` (`next_code`).
  - `NextCode` is proved equal to the pure function `Issue`. It appends
    exactly one row on success and none on failure.
  - `Chained` says that each stored code is the successor of the one before
    it. This is what a table filled only by `next_code` looks like.
  - On such a table, `NextCode` keeps the table chained and never hits the
    unique constraint.
  - Call k+1 on a table started at `init_code` returns the code whose value
    is Value(init_code) + k, until the code space runs out.
  - `FirstRun`, `IssueFirstTwo` and `RestartScenario` are verified clients. They step the
    default width-4 table through "0000", "0001", a reopen and "0002", and
    show that opening the table with width 5 is refused.
- `errors.dfy` lists one `Error` constructor per exception the source raises.
  `wrappers.dfy` holds `Option` and `Result`.

Where the model departs from the source, or the source needs a word of
explanation:

- At `core.py:54` the source calls `len(last_record)` on the ORM record. That
  object has no length, so Python raises TypeError on every non-empty table.
  The error message shows the authors meant the length of the stored code.
  `Configure` models that intended check, and `ConfigureAsWritten` models the
  line as written (see "## Findings").
- `_calculate_next_code` tests for exhaustion against `code_size`, not
  against `len(code)`. The model requires the two to be equal. Callers
  ensure this: the constructor checks it, and the successor keeps the width.
- A width of 0 is accepted by the constructor (`"0" * 0 == ""`). The first
  call then issues `""`, and the next call fails with the IndexError of
  `reverse_new_code_ints[0]`. The model reproduces this, as `EmptyCode`.
  Negative widths always fail the init_code length check.
- The defaults `code_size=4` and `init_code=None` of the constructor
  (core.py:35) are the default parameters of `Open`, and `info=None` of
  `next_code` (core.py:87) is the default parameter of `NextCode`, whose
  first parameter is the timestamp.

## Model

| member | source | states |
|---|---|---|
| CodeArithmetic.Index | alphanum_code/core.py:42 | the `alphabet_map` lookup is defined exactly for the 36 alphabet symbols and returns the index whose symbol is the character |
| CodeArithmetic.Symbol | alphanum_code/core.py:75 | `Alphabet[d]` is an alphabet symbol for every digit below 36 |
| CodeArithmetic.AlphabetMap | alphanum_code/core.py:33-43 | the alphabet has 36 symbols, `Alphabet[d]` is `Symbol(d)`, membership in the alphabet is `IsSymbol`, and `'0'` and `'Z'` are its first and last symbols |
| CodeArithmetic.ReversedDigits | alphanum_code/core.py:66 | the reversed digit list has the code's length, and position k holds the digit of character n-1-k, each below 36 |
| CodeArithmetic.Join | alphanum_code/core.py:75 | joining digits below 36 gives an alphabet string of the same length |
| CodeArithmetic.JoinReversedDigits | alphanum_code/core.py:66-75 | joining the reversed digits of a code gives the code back, so the join at line 75 inverts the lookup at line 66 |
| CodeArithmetic.Value | alphanum_code/core.py:66-75 | reading a code as a big-endian base-36 number, the order in which the carry loop treats its digits, gives a value below 36^n for width n |
| CodeArithmetic.Bump | alphanum_code/core.py:67-75 | the reference increment from the right end keeps the width |
| CodeArithmetic.Successor | alphanum_code/core.py:66-76 | what `_calculate_next_code` raises or returns, in the source's order: KeyError exactly when a character is outside the alphabet, else IndexError exactly on the empty code, else "Last code reached" exactly when every symbol is `'Z'`; otherwise it succeeds with an alphabet code of the same width |
| CodeArithmetic.TrailingTop | alphanum_code/core.py:67-74 | the count is the length of the maximal run of `'Z'` at the right end: every character in it is `'Z'` and the character before it is not |
| CodeArithmetic.CalculateNextCode | alphanum_code/core.py:57-76 | the carry loop returns exactly `Successor(code)`: KeyError on a non-alphabet character, IndexError on the empty code, "Last code reached" on all-`'Z'`, and otherwise a code of the same width, over the alphabet, with value one higher |
| CodeArithmetic.CarryStep | alphanum_code/core.py:73-74 | one carry step clears position i and increments position i+1, which moves the carry up one place |
| CodeArithmetic.JoinCarried | alphanum_code/core.py:66-76 | once the carry stops at the first digit below `'Z'`, joining the digits gives the reference increment `Bump` |
| CodeArithmetic.BumpCarry | alphanum_code/core.py:67-74 | carry locality: the trailing run of `'Z'` becomes `'0'`, the digit to its left goes up by one, and everything further left is unchanged |
| CodeArithmetic.BumpValue | alphanum_code/core.py:66-75 | incrementing a code that is not all `'Z'` keeps its width and the alphabet and adds exactly one to its value |
| CodeArithmetic.AllTopValue | alphanum_code/core.py:69-71 | a code is all `'Z'` if and only if its value is 36^n - 1 |
| CodeArithmetic.ValueInjective | alphanum_code/core.py:66-76 | two codes of equal width and equal value are the same code |
| CodeArithmetic.SuccessorValue | alphanum_code/core.py:66-76 | a successful successor has the input's width, uses only alphabet symbols and has value one higher |
| CodeArithmetic.SuccessorSucceeds | alphanum_code/core.py:66-76 | the successor exists if and only if the code is non-empty, uses only alphabet symbols and has a value below 36^n - 1 |
| CodeArithmetic.SuccessorExhausted | alphanum_code/core.py:67-71 | "Last code reached" is raised exactly when every symbol is `'Z'`, that is exactly when the value is 36^n - 1 |
| CodeArithmetic.OrderAgreesWithValue | alphanum_code/core.py:33 | on codes of equal width, Python's code-point string order and the base-36 order agree, both ways |
| CodeArithmetic.CountingExamples | alphanum_code/core.py:66-76 | "0000" leads to "0001" and then "0002"; "0009" leads to "000A" |
| CodeArithmetic.CarryExample | alphanum_code/core.py:67-75 | "000Z" carries to "0010" |
| CodeArithmetic.ExhaustionExamples | alphanum_code/core.py:66-71 | "Z" and "ZZZZ" are the last codes of widths 1 and 4; a lower-case letter raises the KeyError |
| CodeManager.WellFormed | alphanum_code/core.py:111-112 | the table's own constraints: ids are 1, 2, … in insertion order and codes are pairwise distinct (its consequences are stated by KeyColumns and LastRecord) |
| CodeManager.KeyColumns | alphanum_code/core.py:111-112 | on a table satisfying `WellFormed` (ids autoincrement from 1, codes unique), both `id` and `code` determine the row |
| CodeManager.LastRecord | alphanum_code/core.py:78-85 | `_get_last_record` returns None exactly on an empty table, and otherwise a stored row whose id is the largest |
| CodeManager.Repeat | alphanum_code/core.py:40-41 | `c * n` has n copies of c, or none when n is zero or less |
| CodeManager.DefaultInitIsZero | alphanum_code/core.py:40-41 | the default init_code is a code of value zero |
| CodeManager.Configure | alphanum_code/core.py:38-55 | `__init__` fails on an init_code whose length is not code_size (with the default init_code, exactly when code_size is negative), and otherwise fails exactly when the last stored code does not have code_size characters; on success the init_code has code_size characters and is the given one or all `'0'` |
| CodeManager.ConfigureAsWritten | alphanum_code/core.py:52-55 | as written, `__init__` fails whenever the table has a last record |
| CodeManager.ReopenFailsAsWritten | alphanum_code/core.py:52-55 | a non-empty table whose codes have the configured width is refused as written, and accepted by the intended check |
| CodeManager.Issue | alphanum_code/core.py:96-104 | what `next_code` returns or raises: init_code on an empty table; otherwise the error of `_calculate_next_code` on the last code if it raises, and its result if that code is not yet stored; IntegrityError (unique `code`, core.py:112) exactly when it is already stored, so an issued code is never a stored one |
| CodeManager.Chained | alphanum_code/core.py:96-105 | the shape a table has when only `next_code` fills it: every code is the successor of the one before it (its consequences are stated by ChainedValues, ChainedDistinct and ChainCapacity) |
| CodeManager.ChainedValues | alphanum_code/core.py:96-105 | on a table filled by repeated successors, record k has the first code's width and the value of the first code plus k |
| CodeManager.ChainedDistinct | alphanum_code/core.py:112 | the codes of such a table are pairwise distinct |
| CodeManager.ChainCapacity | alphanum_code/core.py:69-71 | such a table of width n whose first value is v holds at most 36^n - v records |
| CodeManager.IssueExtendsChain | alphanum_code/core.py:96-105 | on such a table `next_code` is init_code on an empty table and otherwise the successor of the last code, never a duplicate, and the row it appends keeps the table chained |
| CodeManager.IssueKeepsChain | alphanum_code/core.py:96-105 | a `next_code` call on a chained table never meets the unique constraint, and the table after it, with the row appended or unchanged, is still chained |
| CodeManager.IssueOnChain | alphanum_code/core.py:96-105 | after k records started from init_code, the next call issues the code of value Value(init_code) + k with the same width when that value is below 36^n, and otherwise raises "Last code reached" |
| CodeManager.IssueIgnoresInitCode | alphanum_code/core.py:96-100 | on a non-empty table what `next_code` issues does not depend on init_code, so a reopened manager goes on where the last one stopped |
| CodeManager.RestartExamples | alphanum_code/core.py:35-105 | with the default width 4 an empty table accepts the constructor and issues "0000", then "0001", then "0002"; the two-row table is accepted again with width 4 and refused with width 5 |
| CodeManager.Store.constructor | alphanum_code/core.py:108-114 | a table holding rows with autoincrement ids and unique codes |
| CodeManager.Store.Insert | alphanum_code/core.py:102-104 | inserting a stored code fails with the unique-constraint error and leaves the table unchanged; otherwise exactly one row with the next id, the code, the date and the info is appended |
| CodeManager.AlphaNumCodeManager.constructor | alphanum_code/core.py:35-55 | the manager's state after its checks have passed: its store, code_size and init_code, with its invariant established |
| CodeManager.AlphaNumCodeManager.Open | alphanum_code/core.py:35-55 | construction succeeds exactly when `Configure` accepts, fails with `Configure`'s error otherwise, and on success gives a new valid manager on the given table with the effective init_code |
| CodeManager.FirstRun | alphanum_code/core.py:35-105 | two `next_code` calls on a new default manager leave exactly the rows "0000" and "0001" with ids 1 and 2 |
| CodeManager.IssueFirstTwo | alphanum_code/core.py:87-105 | two `next_code` calls on an empty default table append exactly the rows "0000" and "0001" with ids 1 and 2 |
| CodeManager.RestartScenario | alphanum_code/core.py:35-105 | a client: after the two calls a manager reopened with width 4 issues "0002", and opening with width 5 is refused (its asserts are checked; it has no contract) |
| CodeManager.AlphaNumCodeManager.NextCode | alphanum_code/core.py:87-105 | `next_code` returns `Issue(old rows, init_code)` and appends exactly one row (next id, the code, the date, the info) on success and none on failure; it keeps the width invariant, and on a chained table it keeps the table chained and never meets the unique constraint |

## Left out

- SQLAlchemy plumbing: `create_engine`, `declarative_base`, `metadata.create_all`, `sessionmaker` and the session. The table is the `Store` class, and `session.add` with `commit` is `Store.Insert`.
- `datetime.datetime.now().isoformat()`: the clock is the `date` parameter of `NextCode`.
- `AlphaNumCode.__repr__`: string formatting only.
- `setup.py` and `alphanum_code/__init__.py`: packaging metadata and reading the VERSION file.
- Store.Insert: ids are exactly position + 1, as SQLite's rowid gives for a table nothing is deleted from. A backend whose autoincrement sequence uses up a value on a failed insert would skip an id after an IntegrityError. Only the order of ids matters to `order_by(id.desc())`, and the model does not capture such gaps.
- Concurrent writers. Two managers on one table with different widths are also left out: `NextCode` requires that the last stored code has the manager's width, which is true under a single writer.
- The session state after a failed commit. The model leaves the table unchanged and returns the error. SQLAlchemy would also need a rollback before the next call.
- The payload of the KeyError, which names the offending character, and the texts of the exception messages.
- CodeArithmetic.CalculateNextCode: requires `|code| == codeSize`. It does not model what the loop would do on a code whose length differs from `code_size`, since no call in the source passes one.

## Findings

| source | as written | input that shows it | evidently intended | confidence | as-written member | corrected member |
|---|---|---|---|---|---|---|
| alphanum_code/core.py:54 | `len(last_record)` is applied to the `AlphaNumCode` record, which defines no `__len__`, so it raises TypeError | a table holding one row with code "0000", reopened with code_size 4 | compare `len(last_record.code)` with code_size, as the error message on line 55 says | high; not executed | CodeManager.ConfigureAsWritten (shown by CodeManager.ReopenFailsAsWritten) | CodeManager.Configure |
