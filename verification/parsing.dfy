/** `str::parse::<u32>()`: an optional `+`, then one or more ASCII decimal
    digits whose value fits in 32 bits. Digits are read left to right and
    the first bad character or the first overflow ends the parse. */
module Parsing {
  import opened Results

  /** `core::num::IntErrorKind`, as far as an unsigned target can raise it. */
  datatype IntErrorKind = Empty | InvalidDigit | PosOverflow

  /** One more than `u32::MAX`. */
  const U32_LIMIT: nat := 0x1_0000_0000

  predicate IsDigit(c: char) {
    '0' <= c <= '9'
  }

  predicate AllDigits(s: string) {
    forall k :: 0 <= k < |s| ==> IsDigit(s[k])
  }

  function DigitValue(c: char): nat
    requires IsDigit(c)
  {
    c as int - '0' as int
  }

  /** Reference definition: the number a digit string denotes, read from its
      last (least significant) digit. */
  function Value(s: string): nat
    requires AllDigits(s)
  {
    if |s| == 0 then 0 else Value(s[..|s| - 1]) * 10 + DigitValue(s[|s| - 1])
  }

  /** The digits after an optional leading `+`. */
  function Digits(s: string): string {
    if |s| > 0 && s[0] == '+' then s[1..] else s
  }

  /** `s` is the text of a `u32`. */
  predicate ValidU32(s: string) {
    var d := Digits(s);
    |d| > 0 && AllDigits(d) && Value(d) < U32_LIMIT
  }

  /** The digit loop of `from_str_radix`: multiply by ten and add each digit,
      failing on a non-digit or once the value leaves the `u32` range. */
  function DigitLoop(acc: nat, s: string): Result<nat, IntErrorKind>
    decreases |s|
  {
    if |s| == 0 then Ok(acc)
    else if !IsDigit(s[0]) then Err(InvalidDigit)
    else
      var next := acc * 10 + DigitValue(s[0]);
      if next >= U32_LIMIT then Err(PosOverflow) else DigitLoop(next, s[1..])
  }

  /** `u32::from_str`. An empty string is `Empty`; a lone sign is
      `InvalidDigit`. */
  function ParseU32(s: string): (r: Result<nat, IntErrorKind>)
    ensures r.Ok? <==> ValidU32(s)
    ensures r.Ok? ==> r.value == Value(Digits(s)) && r.value < U32_LIMIT
    ensures r == Err(Empty) <==> |s| == 0
  {
    if |s| == 0 then Err(Empty)
    else if |s| == 1 && (s[0] == '+' || s[0] == '-') then Err(InvalidDigit)
    else
      var d := Digits(s);
      DigitLoopSpec(d);
      DigitLoopErr(0, d);
      DigitLoopNotEmpty(0, d);
      DigitLoop(0, d)
  }

  /** The digit loop's accumulator only grows. */
  function Fold(acc: nat, s: string): (r: nat)
    requires AllDigits(s)
    ensures r >= acc
    decreases |s|
  {
    if |s| == 0 then acc else Fold(acc * 10 + DigitValue(s[0]), s[1..])
  }

  lemma {:induction false} FoldSnoc(acc: nat, s: string, c: char)
    requires AllDigits(s) && IsDigit(c)
    ensures AllDigits(s + [c])
    ensures Fold(acc, s + [c]) == Fold(acc, s) * 10 + DigitValue(c)
    decreases |s|
  {
    if |s| > 0 {
      assert (s + [c])[1..] == s[1..] + [c];
      FoldSnoc(acc * 10 + DigitValue(s[0]), s[1..], c);
    }
  }

  /** Accumulating left to right gives the value read from the right. */
  lemma {:induction false} FoldIsValue(s: string)
    requires AllDigits(s)
    ensures Fold(0, s) == Value(s)
    decreases |s|
  {
    if |s| > 0 {
      var front := s[..|s| - 1];
      FoldIsValue(front);
      FoldSnoc(0, front, s[|s| - 1]);
      assert front + [s[|s| - 1]] == s;
    }
  }

  lemma {:induction false} DigitLoopFold(acc: nat, s: string)
    requires AllDigits(s) && acc < U32_LIMIT
    ensures DigitLoop(acc, s) == if Fold(acc, s) < U32_LIMIT then Ok(Fold(acc, s)) else Err(PosOverflow)
    decreases |s|
  {
    if |s| > 0 {
      var next := acc * 10 + DigitValue(s[0]);
      if next < U32_LIMIT {
        DigitLoopFold(next, s[1..]);
      }
    }
  }

  /** On digits alone, the loop yields the value or reports overflow. */
  lemma DigitLoopSpec(s: string)
    ensures AllDigits(s) ==>
      DigitLoop(0, s) == if Value(s) < U32_LIMIT then Ok(Value(s)) else Err(PosOverflow)
  {
    if AllDigits(s) {
      DigitLoopFold(0, s);
      FoldIsValue(s);
    }
  }

  /** A non-digit anywhere makes the loop fail. */
  lemma {:induction false} DigitLoopErr(acc: nat, s: string)
    ensures !AllDigits(s) ==> DigitLoop(acc, s).Err?
    decreases |s|
  {
    if |s| > 0 && IsDigit(s[0]) {
      var next := acc * 10 + DigitValue(s[0]);
      DigitLoopErr(next, s[1..]);
      if !AllDigits(s) {
        assert !AllDigits(s[1..]) by {
          var k :| 0 <= k < |s| && !IsDigit(s[k]);
          assert s[1..][k - 1] == s[k];
        }
      }
    }
  }

  /** The loop never reports `Empty`. */
  lemma {:induction false} DigitLoopNotEmpty(acc: nat, s: string)
    ensures DigitLoop(acc, s) != Err(Empty)
    decreases |s|
  {
    if |s| > 0 && IsDigit(s[0]) {
      var next := acc * 10 + DigitValue(s[0]);
      if next < U32_LIMIT {
        DigitLoopNotEmpty(next, s[1..]);
      }
    }
  }

  /** The decimal text of `n`, as `u32`'s `Display` writes it. */
  function Show(n: nat): (r: string)
    ensures |r| > 0 && AllDigits(r)
    ensures r[0] != '+'
  {
    var c := ('0' as int + n % 10) as char;
    if n < 10 then [c] else Show(n / 10) + [c]
  }

  lemma {:induction false} ValueOfShow(n: nat)
    ensures Value(Show(n)) == n
    decreases n
  {
    var s := Show(n);
    assert s[..|s| - 1] == if n < 10 then [] else Show(n / 10);
    if n >= 10 {
      ValueOfShow(n / 10);
    }
  }

  /** Parsing the text of any `u32` gives back the number. */
  lemma ParseShow(n: nat)
    requires n < U32_LIMIT
    ensures ParseU32(Show(n)) == Ok(n)
  {
    ValueOfShow(n);
  }
}
