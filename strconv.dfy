/**
 * Decimal parsing as done by Go's `strconv.Atoi`: an optional `+` or `-`,
 * then one or more ASCII digits and nothing else. Range errors of the 64-bit
 * result are not modelled (integers are unbounded here).
 */
module StrConv {
  import opened Wrappers

  predicate IsDigit(c: char) { '0' <= c <= '9' }

  predicate AllDigits(s: string)
  {
    forall i | 0 <= i < |s| :: IsDigit(s[i])
  }

  /** The grammar Atoi accepts: `[+-]?[0-9]+`. */
  predicate IsDecimal(s: string)
  {
    if |s| > 0 && (s[0] == '+' || s[0] == '-') then |s| > 1 && AllDigits(s[1..])
    else |s| > 0 && AllDigits(s)
  }

  function DigitValue(c: char): nat
    requires IsDigit(c)
  {
    c as int - '0' as int
  }

  /** Reference value of a digit string, defined from its last digit. */
  function Value(s: string): nat
    requires AllDigits(s)
  {
    if s == [] then 0 else Value(s[..|s| - 1]) * 10 + DigitValue(s[|s| - 1])
  }

  /** Reference value of a string in the Atoi grammar, sign included. */
  function SignedValue(s: string): int
    requires IsDecimal(s)
  {
    if s[0] == '-' then -(Value(s[1..]) as int)
    else if s[0] == '+' then Value(s[1..])
    else Value(s)
  }

  /** The digit loop of Atoi: left to right, `n = n*10 + digit`, failing on a non-digit. */
  function Scan(s: string, acc: nat): Option<nat>
  {
    if s == [] then Some(acc)
    else if !IsDigit(s[0]) then None
    else Scan(s[1..], acc * 10 + DigitValue(s[0]))
  }

  /** `strconv.Atoi`: `None` stands for the syntax error. */
  function Atoi(s: string): (r: Option<int>)
    ensures r.Some? <==> IsDecimal(s)
    ensures r.Some? ==> r.value == SignedValue(s)
  {
    if s == [] then None
    else if s[0] == '-' || s[0] == '+' then
      if |s| == 1 then None
      else
        ScanCorrect(s[1..]);
        match Scan(s[1..], 0)
        case None => None
        case Some(v) => Some(if s[0] == '-' then -(v as int) else v)
    else
      ScanCorrect(s);
      Scan(s, 0)
  }

  /** `n, _ := strconv.Atoi(s)`: the discarded error leaves `n == 0`. */
  function AtoiOrZero(s: string): (n: int)
    ensures IsDecimal(s) ==> n == SignedValue(s)
    ensures !IsDecimal(s) ==> n == 0
  {
    match Atoi(s)
    case None => 0
    case Some(v) => v
  }

  lemma {:induction false} ScanAppend(p: string, s: string)
    requires AllDigits(p)
    ensures AllDigits(s) ==> AllDigits(p + s) && Scan(s, Value(p)) == Some(Value(p + s))
    ensures !AllDigits(s) ==> Scan(s, Value(p)).None?
    decreases |s|
  {
    if s == [] {
      assert p + s == p;
    } else {
      var d := s[0];
      if IsDigit(d) {
        var p' := p + [d];
        assert p'[..|p'| - 1] == p;
        assert AllDigits(p');
        assert Value(p') == Value(p) * 10 + DigitValue(d);
        ScanAppend(p', s[1..]);
        assert p' + s[1..] == p + s;
        if !AllDigits(s) {
          var i :| 0 <= i < |s| && !IsDigit(s[i]);
          assert !IsDigit(s[1..][i - 1]);
        }
      } else {
        assert !AllDigits(s);
      }
    }
  }

  lemma ScanCorrect(s: string)
    ensures Scan(s, 0).Some? <==> AllDigits(s)
    ensures AllDigits(s) ==> Scan(s, 0) == Some(Value(s))
  {
    assert AllDigits([]) && Value([]) == 0;
    ScanAppend([], s);
    assert [] + s == s;
  }

  /** The canonical decimal rendering of a natural number (`strconv.Itoa` for n >= 0). */
  function NatToString(n: nat): (s: string)
    ensures |s| > 0 && AllDigits(s) && Value(s) == n
  {
    var d := ['0' + (n % 10) as char];
    assert AllDigits(d) && Value(d) == n % 10 by {
      assert d[..0] == [];
    }
    if n < 10 then d
    else
      var s := NatToString(n / 10) + d;
      assert s[..|s| - 1] == NatToString(n / 10);
      s
  }

  /** `strconv.Itoa`: the reference rendering that Atoi must invert. */
  function Itoa(n: int): string
  {
    if n < 0 then "-" + NatToString(-n) else NatToString(n)
  }

  /** Every rendered integer parses back to itself. */
  lemma AtoiItoa(n: int)
    ensures Atoi(Itoa(n)) == Some(n)
  {
    var s := Itoa(n);
    if n < 0 {
      assert s[1..] == NatToString(-n);
    }
  }
}
