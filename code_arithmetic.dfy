/** Sequence arithmetic of AlphaNumCodeManager (alphanum_code/core.py):
    codes are fixed-width strings over the 36-symbol alphabet 0-9A-Z, read
    as big-endian base-36 numbers, and `_calculate_next_code` adds one with
    carry or raises when the carry passes the most significant digit. */
module CodeArithmetic {
  import opened Wrappers
  import opened Errors

  /** `string.digits + string.ascii_uppercase` (core.py:33). */
  const Alphabet: string := "0123456789" + "ABCDEFGHIJKLMNOPQRSTUVWXYZ"

  /** `len(self.alphabet_map)` (core.py:43); AlphabetMap shows it is the
      length of the alphabet. */
  const AlphabetSize: nat := 36

  /** The symbol of digit 0, which the default init_code repeats (core.py:41). */
  const Zero: char := '0'

  /** The symbol of the largest digit; a run of it is what a carry clears. */
  const Top: char := 'Z'

  /** A character of the alphabet. */
  predicate IsSymbol(c: char) {
    '0' <= c <= '9' || 'A' <= c <= 'Z'
  }

  /** `Alphabet[d]` (core.py:75), by character code: digits from '0', then
      letters from 'A'. */
  function Symbol(d: nat): (c: char)
    requires d < AlphabetSize
    ensures IsSymbol(c)
  {
    if d < 10 then ('0' as int + d) as char else ('A' as int + d - 10) as char
  }

  /** `self.alphabet_map.get(c)`: the position of `c` in the alphabet (core.py:42). */
  function Index(c: char): (r: Option<nat>)
    ensures r.Some? <==> IsSymbol(c)
    ensures r.Some? ==> r.value < AlphabetSize && Symbol(r.value) == c
  {
    if '0' <= c <= '9' then Some(c as int - '0' as int)
    else if 'A' <= c <= 'Z' then Some(c as int - 'A' as int + 10)
    else None
  }

  /** The digit a symbol stands for. */
  function Digit(c: char): nat
    requires IsSymbol(c)
  {
    Index(c).value
  }

  /** Every character of `s` is an alphabet symbol. */
  predicate IsCode(s: string) {
    forall k :: 0 <= k < |s| ==> IsSymbol(s[k])
  }

  predicate AllTop(s: string) {
    forall k :: 0 <= k < |s| ==> s[k] == Top
  }

  function Pow(b: nat, e: nat): nat {
    if e == 0 then 1 else b * Pow(b, e - 1)
  }

  /** The number a code stands for: leftmost symbol most significant. A
      code of width n stands for a number below 36^n. */
  function Value(s: string): (v: nat)
    requires IsCode(s)
    decreases |s|
    ensures v < Pow(AlphabetSize, |s|)
  {
    if s == [] then 0
    else
      var q := s[..|s| - 1];
      ShiftBound(Value(q), Digit(s[|s| - 1]), |q|);
      Value(q) * AlphabetSize + Digit(s[|s| - 1])
  }

  /** Appending a digit below 36 to a number below 36^e gives one below 36^(e+1). */
  lemma ShiftBound(v: nat, d: nat, e: nat)
    requires v < Pow(AlphabetSize, e) && d < AlphabetSize
    ensures v * AlphabetSize + d < Pow(AlphabetSize, e + 1)
  {
    assert v * AlphabetSize <= (Pow(AlphabetSize, e) - 1) * AlphabetSize;
  }

  /** The length of the run of Top symbols at the right end of `s`. */
  function TrailingTop(s: string): (t: nat)
    decreases |s|
    ensures t <= |s|
    ensures forall k :: |s| - t <= k < |s| ==> s[k] == Top
    ensures t < |s| ==> s[|s| - 1 - t] != Top
  {
    if s == [] || s[|s| - 1] != Top then 0 else 1 + TrailingTop(s[..|s| - 1])
  }

  /** Reference increment: add one at the right end and carry leftward.
      The all-Top code wraps around to the all-Zero one. */
  function Bump(s: string): (r: string)
    requires IsCode(s)
    decreases |s|
    ensures |r| == |s|
  {
    if s == [] then []
    else if s[|s| - 1] == Top then Bump(s[..|s| - 1]) + [Zero]
    else s[..|s| - 1] + [Symbol(Digit(s[|s| - 1]) + 1)]
  }

  /** What `_calculate_next_code(code)` returns or raises, for a code of
      `code_size` characters (core.py:66-76). */
  function Successor(code: string): (r: Result<string, Error>)
    ensures r == Failure(InvalidCharacter) <==> !IsCode(code)
    ensures r == Failure(EmptyCode) <==> code == []
    ensures r == Failure(LastCodeReached) <==> IsCode(code) && code != [] && AllTop(code)
    ensures r.Success? <==> IsCode(code) && code != [] && !AllTop(code)
    ensures r.Success? ==> IsCode(r.value) && |r.value| == |code|
  {
    if !IsCode(code) then Failure(InvalidCharacter)
    else if code == [] then Failure(EmptyCode)
    else if AllTop(code) then Failure(LastCodeReached)
    else BumpValue(code); Success(Bump(code))
  }

  /** `_calculate_next_code` (core.py:57-76). The digits are held least
      significant first, as in `reverse_new_code_ints`, and the loop updates
      position i and i + 1 in place. The exhaustion test compares with
      `codeSize`, as the source does, which the precondition makes the
      code's own length. */
  method CalculateNextCode(code: string, codeSize: int) returns (r: Result<string, Error>)
    requires |code| == codeSize
    ensures r == Successor(code)
    ensures r.Success? ==> IsCode(r.value) && |r.value| == |code| && Value(r.value) == Value(code) + 1
  {
    // the comprehension looks every character up in alphabet_map
    if !IsCode(code) {
      return Failure(InvalidCharacter);
    }
    var n := |code|;
    var ds := ReversedDigits(code);
    ghost var d0 := ds;
    // reverse_new_code_ints[0] on an empty list
    if n == 0 {
      return Failure(EmptyCode);
    }
    ds := ds[0 := ds[0] + 1];
    ghost var t := TrailingTop(code);
    TopDigit();
    assert forall k :: 0 <= k < t ==> d0[k] == AlphabetSize - 1 by {
      forall k | 0 <= k < t ensures d0[k] == AlphabetSize - 1 {
        assert code[n - 1 - k] == Top;
      }
    }
    assert t < n ==> d0[t] < AlphabetSize - 1;
    assert ds == Carried(d0, 0);
    var i := 0;
    while i < n
      invariant 0 <= i <= n && |ds| == n
      invariant t == n ==> i < n
      invariant ds == Carried(d0, if i <= t then i else t)
    {
      if ds[i] >= AlphabetSize {
        if i >= codeSize - 1 {
          assert t == n;
          return Failure(LastCodeReached);
        }
        CarryStep(d0, i);
        ds := ds[i := 0][i + 1 := ds[i + 1] + 1];
      }
      i := i + 1;
    }
    assert t < n;
    var next := Join(ds);
    JoinCarried(code);
    r := Success(next);
    SuccessorValue(code);
  }

  /** `[self.alphabet_map[char] for char in code[::-1]]` (core.py:66). */
  function ReversedDigits(code: string): (d: seq<nat>)
    requires IsCode(code)
    ensures |d| == |code|
    ensures forall k :: 0 <= k < |code| ==> d[k] < AlphabetSize && Symbol(d[k]) == code[|code| - 1 - k]
  {
    seq(|code|, k requires 0 <= k < |code| => Digit(code[|code| - 1 - k]))
  }

  /** `"".join(Alphabet[x] for x in reversed(d))` (core.py:75). */
  function Join(d: seq<int>): (s: string)
    requires forall k :: 0 <= k < |d| ==> 0 <= d[k] < AlphabetSize
    ensures |s| == |d| && IsCode(s)
  {
    seq(|d|, k requires 0 <= k < |d| => Symbol(d[|d| - 1 - k]))
  }

  /** Joining the reversed digits of a code gives the code back: line 75
      undoes the lookup of line 66. */
  lemma JoinReversedDigits(code: string)
    requires IsCode(code)
    ensures Join(ReversedDigits(code)) == code
  {
  }

  /** Once the carry has stopped at the first digit below Top, joining the
      digits gives the reference increment. */
  lemma JoinCarried(code: string)
    requires IsCode(code) && !AllTop(code)
    ensures TrailingTop(code) < |code|
    ensures var c := Carried(ReversedDigits(code), TrailingTop(code));
      (forall k :: 0 <= k < |c| ==> 0 <= c[k] < AlphabetSize) && Join(c) == Bump(code)
  {
    CarriedDigits(code);
    var c := Carried(ReversedDigits(code), TrailingTop(code));
    var next, b := Join(c), Bump(code);
    var p := |code| - 1 - TrailingTop(code);
    forall k | 0 <= k < |code| ensures next[k] == b[k] {
      BumpCarry(code);
      if k < p {
        JoinBelow(code);
      } else if k == p {
        JoinAt(code);
      } else {
        JoinAbove(code);
      }
    }
    assert next == b;
  }

  lemma CarriedDigits(code: string)
    requires IsCode(code) && !AllTop(code)
    ensures TrailingTop(code) < |code|
    ensures var c := Carried(ReversedDigits(code), TrailingTop(code));
      forall k :: 0 <= k < |c| ==> 0 <= c[k] < AlphabetSize
  {
    BumpCarry(code);
    var t := TrailingTop(code);
    var d0 := ReversedDigits(code);
    assert d0[t] == Digit(code[|code| - 1 - t]) by {
      DigitOfSymbol(d0[t]);
    }
  }

  lemma JoinBelow(code: string)
    requires IsCode(code) && !AllTop(code)
    ensures var c := Carried(ReversedDigits(code), TrailingTop(code));
      && (forall k :: 0 <= k < |c| ==> 0 <= c[k] < AlphabetSize)
      && forall k :: 0 <= k < |code| - 1 - TrailingTop(code) ==> Join(c)[k] == code[k]
  {
    CarriedDigits(code);
    var n, t := |code|, TrailingTop(code);
    var c := Carried(ReversedDigits(code), t);
    forall k | 0 <= k < n - 1 - t ensures Join(c)[k] == code[k] {
      assert c[n - 1 - k] == ReversedDigits(code)[n - 1 - k];
    }
  }

  lemma JoinAt(code: string)
    requires IsCode(code) && !AllTop(code)
    ensures var c := Carried(ReversedDigits(code), TrailingTop(code));
      var p := |code| - 1 - TrailingTop(code);
      && (forall k :: 0 <= k < |c| ==> 0 <= c[k] < AlphabetSize)
      && 0 <= p && Digit(code[p]) + 1 < AlphabetSize
      && Join(c)[p] == Symbol(Digit(code[p]) + 1)
  {
    CarriedDigits(code);
    TopDigit();
    var t := TrailingTop(code);
    var d0 := ReversedDigits(code);
    assert d0[t] == Digit(code[|code| - 1 - t]) by {
      DigitOfSymbol(d0[t]);
    }
  }

  lemma JoinAbove(code: string)
    requires IsCode(code) && !AllTop(code)
    ensures var c := Carried(ReversedDigits(code), TrailingTop(code));
      && (forall k :: 0 <= k < |c| ==> 0 <= c[k] < AlphabetSize)
      && forall k :: |code| - 1 - TrailingTop(code) < k < |code| ==> Join(c)[k] == Zero
  {
    CarriedDigits(code);
    var n, t := |code|, TrailingTop(code);
    var c := Carried(ReversedDigits(code), t);
    forall k | n - 1 - t < k < n ensures Join(c)[k] == Zero {
      assert c[n - 1 - k] == 0;
      assert Join(c)[k] == Symbol(0);
    }
  }

  /** The reversed digits `d` after the carry has moved up to position j:
      positions below j cleared, position j incremented, the rest untouched. */
  ghost function Carried(d: seq<nat>, j: nat): (r: seq<int>)
    ensures |r| == |d|
  {
    seq(|d|, k requires 0 <= k < |d| => if k < j then 0 else if k == j then d[k] + 1 else d[k])
  }

  /** One step of the loop at core.py:73-74 moves the carry up by one. */
  lemma CarryStep(d: seq<nat>, i: nat)
    requires i + 1 < |d|
    ensures Carried(d, i)[i := 0][i + 1 := Carried(d, i)[i + 1] + 1] == Carried(d, i + 1)
  {
  }

  /** The alphabet is the 36 symbols in the order Symbol lists them, so
      Index is exactly the `alphabet_map` lookup and Symbol the indexing of
      `Alphabet` (core.py:33, 42-43, 75). */
  lemma AlphabetMap()
    ensures |Alphabet| == AlphabetSize
    ensures forall d :: 0 <= d < AlphabetSize ==> Alphabet[d] == Symbol(d)
    ensures forall c :: c in Alphabet <==> IsSymbol(c)
    ensures Zero == Alphabet[0] && Top == Alphabet[AlphabetSize - 1]
  {
  }

  lemma TopDigit()
    ensures IsSymbol(Top) && Digit(Top) == AlphabetSize - 1
    ensures forall c :: IsSymbol(c) && c != Top ==> Digit(c) < AlphabetSize - 1
  {
  }

  /** The carry of Bump(s) is local: p, the position left of the trailing
      run of Top symbols, holds a symbol below Top; everything left of p is
      unchanged, p goes up by one and the run becomes Zero. */
  predicate CarriesLocally(s: string)
    requires IsCode(s)
  {
    && TrailingTop(s) < |s|
    && var p := |s| - 1 - TrailingTop(s);
    && |Bump(s)| == |s|
    && s[p] != Top && Digit(s[p]) + 1 < AlphabetSize
    && (forall k :: 0 <= k < p ==> Bump(s)[k] == s[k])
    && Bump(s)[p] == Symbol(Digit(s[p]) + 1)
    && (forall k :: p < k < |s| ==> s[k] == Top && Bump(s)[k] == Zero)
  }

  /** Carry locality: the trailing run of Top symbols becomes Zero, the digit
      to its left goes up by one, and everything further left is unchanged. */
  lemma {:induction false} BumpCarry(s: string)
    requires IsCode(s) && !AllTop(s)
    ensures CarriesLocally(s)
  {
    var q := s[..|s| - 1];
    if s[|s| - 1] == Top {
      var k :| 0 <= k < |s| && s[k] != Top;
      assert q[k] != Top;
      BumpCarry(q);
      CarryThroughTop(s);
    } else {
      TopDigit();
      assert TrailingTop(s) == 0;
    }
  }

  /** The inductive step of BumpCarry: a trailing Top becomes Zero and the
      rest is bumped as the code without it. */
  lemma CarryThroughTop(s: string)
    requires IsCode(s) && s != [] && s[|s| - 1] == Top
    requires CarriesLocally(s[..|s| - 1])
    ensures CarriesLocally(s)
  {
    var q := s[..|s| - 1];
    assert TrailingTop(s) == 1 + TrailingTop(q);
    assert Bump(s) == Bump(q) + [Zero];
  }

  /** Bump keeps the width and the alphabet, and adds one to the value
      unless every symbol is Top. */
  lemma {:induction false} BumpValue(s: string)
    requires IsCode(s) && !AllTop(s)
    ensures IsCode(Bump(s)) && |Bump(s)| == |s|
    ensures Value(Bump(s)) == Value(s) + 1
  {
    var q := s[..|s| - 1];
    if s[|s| - 1] == Top {
      var k :| 0 <= k < |s| && s[k] != Top;
      assert q[k] != Top;
      BumpValue(q);
      IncrementThroughTop(s);
    } else {
      IncrementLast(s);
    }
  }

  /** The inductive step of BumpValue: a trailing Top becomes Zero and the
      carry goes into the code without it. */
  lemma IncrementThroughTop(s: string)
    requires IsCode(s) && s != [] && s[|s| - 1] == Top
    requires var q := s[..|s| - 1];
      IsCode(Bump(q)) && |Bump(q)| == |q| && Value(Bump(q)) == Value(q) + 1
    ensures IsCode(Bump(s)) && |Bump(s)| == |s|
    ensures Value(Bump(s)) == Value(s) + 1
  {
    TopDigit();
    var q := s[..|s| - 1];
    var b := Bump(q) + [Zero];
    assert Bump(s) == b;
    assert b[..|b| - 1] == Bump(q);
    assert Value(b) == Value(Bump(q)) * AlphabetSize + Digit(Zero);
  }

  /** The base case of BumpValue: the last symbol is below Top and goes up
      by one. */
  lemma IncrementLast(s: string)
    requires IsCode(s) && s != [] && s[|s| - 1] != Top
    ensures IsCode(Bump(s)) && |Bump(s)| == |s|
    ensures Value(Bump(s)) == Value(s) + 1
  {
    TopDigit();
    var q := s[..|s| - 1];
    var c := s[|s| - 1];
    var b := q + [Symbol(Digit(c) + 1)];
    assert Bump(s) == b;
    assert b[..|b| - 1] == q;
    assert Digit(Symbol(Digit(c) + 1)) == Digit(c) + 1 by {
      DigitOfSymbol(Digit(c) + 1);
    }
  }

  /** The alphabet lookup inverts indexing into the alphabet. */
  lemma DigitOfSymbol(d: nat)
    requires d < AlphabetSize
    ensures Digit(Symbol(d)) == d
  {
  }

  /** The all-Top code is exactly the one of largest value, 36^n - 1. */
  lemma {:induction false} AllTopValue(s: string)
    requires IsCode(s)
    ensures AllTop(s) <==> Value(s) == Pow(AlphabetSize, |s|) - 1
    decreases |s|
  {
    TopDigit();
    if AllTop(s) {
      if s != [] {
        var q := s[..|s| - 1];
        assert AllTop(q);
        AllTopValue(q);
        assert Value(s) == Value(q) * AlphabetSize + (AlphabetSize - 1);
      }
    } else {
      BumpValue(s);
    }
  }

  /** Equal-width codes with the same value are the same code. */
  lemma {:induction false} ValueInjective(s: string, u: string)
    requires IsCode(s) && IsCode(u) && |s| == |u|
    requires Value(s) == Value(u)
    ensures s == u
    decreases |s|
  {
    if s != [] {
      var qs, qu := s[..|s| - 1], u[..|u| - 1];
      var ds, du := Digit(s[|s| - 1]), Digit(u[|u| - 1]);
      DivisionUnique(Value(qs), ds, Value(qu), du);
      ValueInjective(qs, qu);
      assert s == qs + [s[|s| - 1]] && u == qu + [u[|u| - 1]];
    }
  }

  lemma DivisionUnique(a: nat, b: nat, c: nat, d: nat)
    requires b < AlphabetSize && d < AlphabetSize
    requires a * AlphabetSize + b == c * AlphabetSize + d
    ensures a == c && b == d
  {
  }

  /** `_calculate_next_code` keeps the width and the alphabet and adds one
      to the value (core.py:66-76). */
  lemma SuccessorValue(code: string)
    ensures Successor(code).Success? ==>
      var next := Successor(code).value;
      IsCode(next) && |next| == |code| && Value(next) == Value(code) + 1
  {
    if Successor(code).Success? {
      BumpValue(code);
    }
  }

  /** It succeeds exactly on non-empty codes over the alphabet whose value
      is below the largest; SuccessorValue states what the result is. */
  lemma SuccessorSucceeds(code: string)
    ensures Successor(code).Success? <==>
      IsCode(code) && |code| > 0 && Value(code) + 1 < Pow(AlphabetSize, |code|)
  {
    if IsCode(code) {
      AllTopValue(code);
    }
  }

  /** "Last code reached" is raised exactly when every symbol is the last
      one, that is when the value is 36^code_size - 1 (core.py:67-71). */
  lemma SuccessorExhausted(code: string)
    requires IsCode(code) && |code| > 0
    ensures Successor(code) == Failure(LastCodeReached) <==> AllTop(code)
    ensures Successor(code) == Failure(LastCodeReached) <==> Value(code) == Pow(AlphabetSize, |code|) - 1
  {
    AllTopValue(code);
  }

  /** Python compares strings by code point, left to right. */
  predicate Precedes(s: string, u: string)
    requires |s| == |u|
    decreases |s|
  {
    |s| > 0 && (s[0] < u[0] || (s[0] == u[0] && Precedes(s[1..], u[1..])))
  }

  /** Value read from the left: the first symbol weighs 36^(n-1). */
  lemma {:induction false} ValueFront(s: string)
    requires IsCode(s) && |s| > 0
    ensures IsCode(s[1..]) && Value(s) == Digit(s[0]) * Pow(AlphabetSize, |s| - 1) + Value(s[1..])
    decreases |s|
  {
    if |s| > 1 {
      var q, r := s[..|s| - 1], s[1..];
      var d0, dl, p := Digit(s[0]), Digit(s[|s| - 1]), Pow(AlphabetSize, |s| - 2);
      assert IsCode(r);
      assert Value(q) == d0 * p + Value(q[1..]) by {
        ValueFront(q);
        assert q[0] == s[0];
      }
      assert Value(r) == Value(q[1..]) * AlphabetSize + dl by {
        assert q[1..] == r[..|r| - 1];
        assert r[|r| - 1] == s[|s| - 1];
      }
      assert Value(s) == Value(q) * AlphabetSize + dl;
      assert Pow(AlphabetSize, |s| - 1) == AlphabetSize * p;
      ScaleInside(d0, p);
    } else {
      assert s[1..] == [] && s[..0] == [];
    }
  }

  lemma ScaleInside(a: nat, p: nat)
    ensures a * (AlphabetSize * p) == AlphabetSize * (a * p)
  {
  }

  /** A smaller leading digit outweighs anything in the lower places. */
  lemma LeadingDigitDominates(a: nat, b: nat, x: nat, y: nat, p: nat)
    requires a < b && x < p
    ensures a * p + x < b * p + y
  {
    var k := b - a;
    assert b * p == a * p + k * p;
    MulAtLeast(k, p);
  }

  lemma {:induction false} MulAtLeast(k: nat, p: nat)
    requires k >= 1
    ensures k * p >= p
  {
    if k > 1 {
      MulAtLeast(k - 1, p);
      assert k * p == (k - 1) * p + p;
    }
  }

  /** Since '0'-'9' come before 'A'-'Z' in ASCII and the alphabet lists them
      in that order (core.py:33), string order agrees with numeric order on
      codes of equal width. */
  lemma {:induction false} OrderAgreesWithValue(s: string, u: string)
    requires IsCode(s) && IsCode(u) && |s| == |u|
    ensures Precedes(s, u) <==> Value(s) < Value(u)
    decreases |s|
  {
    if |s| > 0 {
      ValueFront(s);
      ValueFront(u);
      var p := Pow(AlphabetSize, |s| - 1);
      var ds, du := Digit(s[0]), Digit(u[0]);
      if s[0] == u[0] {
        OrderAgreesWithValue(s[1..], u[1..]);
      } else if s[0] < u[0] {
        LeadingDigitDominates(ds, du, Value(s[1..]), Value(u[1..]), p);
      } else {
        LeadingDigitDominates(du, ds, Value(u[1..]), Value(s[1..]), p);
      }
    }
  }

  /** Width 4 from "0000": each code is followed by the next one, and the
      tenth code "0009" by "000A". */
  lemma CountingExamples()
    ensures Successor("0000") == Success("0001")
    ensures Successor("0001") == Success("0002")
    ensures Successor("0009") == Success("000A")
  {
    assert Bump("0000") == "0001" by {
      assert "0000"[3] != Top && "0000"[..3] == "000";
    }
    assert Bump("0001") == "0002" by {
      assert "0001"[3] != Top && "0001"[..3] == "000";
    }
    assert Bump("0009") == "000A" by {
      assert "0009"[3] != Top && "0009"[..3] == "000";
    }
  }

  /** The 36th code "000Z" is followed by "0010": the carry clears the
      trailing 'Z'. */
  lemma CarryExample()
    ensures Successor("000Z") == Success("0010")
  {
    assert Bump("000") == "001" by {
      assert "000"[2] != Top && "000"[..2] == "00";
    }
    assert Bump("000Z") == "0010" by {
      assert "000Z"[3] == Top && "000Z"[..3] == "000";
    }
    assert !AllTop("000Z") by {
      assert "000Z"[0] != Top;
    }
  }

  /** Width 1 stops after "Z", width 4 after "ZZZZ", and a lower-case letter
      is not in the alphabet. */
  lemma ExhaustionExamples()
    ensures Successor("Z") == Failure(LastCodeReached)
    ensures Successor("ZZZZ") == Failure(LastCodeReached)
    ensures Successor("00a0") == Failure(InvalidCharacter)
  {
    assert !IsSymbol("00a0"[2]);
  }
}
