/** The number recogniser of the JSON highlighter against the number grammar of RFC 8259,
    section 6. */
module JsonNumber {
  import opened Text
  import opened Decimals

  // ---------- the grammar ----------

  predicate IsMinus(s: string) {
    s == "" || s == "-"
  }

  predicate IsInt(s: string) {
    s == "0" || (s != "" && '1' <= s[0] <= '9' && AllDigits(s))
  }

  predicate IsFrac(s: string) {
    s == "" || (|s| >= 2 && s[0] == '.' && AllDigits(s[1..]))
  }

  predicate IsSign(c: char) {
    c == '+' || c == '-'
  }

  predicate IsExp(s: string) {
    s == "" ||
    (|s| >= 2 && (s[0] == 'e' || s[0] == 'E') &&
     (AllDigits(s[1..]) || (|s| >= 3 && IsSign(s[1]) && AllDigits(s[2..]))))
  }

  ghost predicate Splits(s: string, m: string, i: string, f: string, e: string) {
    s == m + i + f + e && IsMinus(m) && IsInt(i) && IsFrac(f) && IsExp(e)
  }

  /** number = [ minus ] int [ frac ] [ exp ] */
  ghost predicate IsNumber(s: string) {
    exists m, i, f, e :: Splits(s, m, i, f, e)
  }

  // ---------- deterministic recognition ----------

  function IntLength(s: string): (n: nat)
    ensures n <= |s|
  {
    if s == "" then 0
    else if s[0] == '0' then 1
    else DigitRun(s)
  }

  function Unsigned(s: string): string {
    if s != "" && IsSign(s[0]) then s[1..] else s
  }

  predicate ExpOk(s: string) {
    s == "" || ((s[0] == 'e' || s[0] == 'E') && Unsigned(s[1..]) != "" && DigitRun(Unsigned(s[1..])) == |Unsigned(s[1..])|)
  }

  predicate FracExpOk(s: string) {
    if s != "" && s[0] == '.' then
      var n := DigitRun(s[1..]);
      n > 0 && ExpOk(s[1 + n..])
    else ExpOk(s)
  }

  predicate IntFracExpOk(s: string) {
    var n := IntLength(s);
    n > 0 && FracExpOk(s[n..])
  }

  predicate NumberOk(s: string) {
    IntFracExpOk(AfterMinus(s))
  }

  lemma ExpOkIsExp(s: string)
    ensures ExpOk(s) <==> IsExp(s)
  {
    if s != "" {
      var t := Unsigned(s[1..]);
      assert t == s[1..] || (|s| >= 2 && t == s[2..]);
      if AllDigits(t) {
        DigitRunOf(t, "");
        assert t + "" == t;
      }
      DigitRunIsMaximal(t);
      assert t[..|t|] == t;
      assert |s| >= 2 && IsSign(s[1]) ==> !AllDigits(s[1..]) by {
        if |s| >= 2 {
          assert s[1..][0] == s[1];
        }
      }
    }
  }

  lemma FracExpAccepts(f: string, e: string)
    requires IsFrac(f) && IsExp(e)
    ensures FracExpOk(f + e)
  {
    ExpOkIsExp(e);
    if f == "" {
      assert f + e == e;
    } else {
      assert (f + e)[1..] == f[1..] + e;
      DigitRunOf(f[1..], e);
      assert (f + e)[|f|..] == e;
    }
  }

  lemma IntFracExpAccepts(i: string, f: string, e: string)
    requires IsInt(i) && IsFrac(f) && IsExp(e)
    ensures IntFracExpOk(i + (f + e))
  {
    var rest := f + e;
    assert rest != "" ==> !IsDigit(rest[0]);
    FracExpAccepts(f, e);
    if i != "0" {
      DigitRunOf(i, rest);
    }
    assert (i + rest)[|i|..] == rest;
  }

  lemma FracExpSplits(s: string) returns (f: string, e: string)
    requires FracExpOk(s)
    ensures s == f + e && IsFrac(f) && IsExp(e)
  {
    if s != "" && s[0] == '.' {
      var n := DigitRun(s[1..]);
      f, e := s[..1 + n], s[1 + n..];
      DigitRunIsMaximal(s[1..]);
      assert f[1..] == s[1..][..n];
    } else {
      f, e := "", s;
    }
    ExpOkIsExp(e);
  }

  function AfterMinus(s: string): string {
    if s != "" && s[0] == '-' then s[1..] else s
  }

  lemma NumberOkSplits(s: string)
    requires NumberOk(s)
    ensures IsNumber(s)
  {
    hide DigitRun, ExpOk, FracExpOk, IsInt, IsFrac, IsExp, IntLength, AllDigits;
    var m := if s != "" && s[0] == '-' then "-" else "";
    var t := AfterMinus(s);
    var n := IntLength(t);
    var f, e := FracExpSplits(t[n..]);
    IntPrefix(t);
    var i := t[..n];
    assert t == i + t[n..];
    MinusPrefix(s);
    Reassociate(m, i, f, e);
    assert Splits(s, m, i, f, e);
  }

  lemma MinusPrefix(s: string)
    ensures s == (if s != "" && s[0] == '-' then "-" else "") + AfterMinus(s)
  {}

  lemma Reassociate(m: string, i: string, f: string, e: string)
    ensures m + (i + (f + e)) == m + i + f + e
  {}

  lemma IntPrefix(t: string)
    requires IntLength(t) > 0
    ensures IsInt(t[..IntLength(t)])
  {
    DigitRunIsMaximal(t);
    assert t[..IntLength(t)][0] == t[0];
  }

  lemma SplitsNumberOk(s: string, m: string, i: string, f: string, e: string)
    requires Splits(s, m, i, f, e)
    ensures NumberOk(s)
  {
    hide IntFracExpOk, IsFrac, IsExp;
    var t := i + (f + e);
    IntFracExpAccepts(i, f, e);
    Reassociate(m, i, f, e);
    if m == "" {
      assert s == t && s[0] == i[0];
      assert s[0] != '-';
    } else {
      assert s[0] == '-' && s[1..] == t;
    }
  }

  /** The recogniser accepts exactly the grammar. */
  lemma NumberOkIsNumber(s: string)
    ensures NumberOk(s) <==> IsNumber(s)
  {
    if NumberOk(s) {
      NumberOkSplits(s);
    }
    if IsNumber(s) {
      var m, i, f, e :| Splits(s, m, i, f, e);
      SplitsNumberOk(s, m, i, f, e);
    }
  }

  // ---------- the same, by position ----------

  predicate DigitAt(s: string, i: nat) {
    i < |s| && IsDigit(s[i])
  }

  function DigitsEnd(s: string, i: nat): (j: nat)
    requires i <= |s|
    ensures i <= j <= |s|
  {
    i + DigitRun(s[i..])
  }

  predicate IntFracExpAt(s: string, i: nat)
    requires i <= |s|
  {
    IntFracExpOk(s[i..])
  }

  predicate FracExpAt(s: string, i: nat)
    requires i <= |s|
  {
    FracExpOk(s[i..])
  }

  predicate ExpAt(s: string, i: nat)
    requires i <= |s|
  {
    ExpOk(s[i..])
  }

  lemma MinusStage(s: string)
    ensures NumberOk(s) <==> IntFracExpAt(s, if s != "" && s[0] == '-' then 1 else 0)
  {
    assert s[0..] == s;
  }

  lemma IntStage(s: string, i: nat)
    requires i <= |s|
    ensures IntFracExpAt(s, i) <==> DigitAt(s, i) && FracExpAt(s, if s[i] == '0' then i + 1 else DigitsEnd(s, i))
  {
    hide FracExpOk;
    var t := s[i..];
    var n := IntLength(t);
    assert t[n..] == s[i + n..];
    if i < |s| {
      assert t[0] == s[i];
    }
  }

  lemma FracStage(s: string, i: nat)
    requires i <= |s|
    ensures FracExpAt(s, i) <==>
            if i < |s| && s[i] == '.' then DigitAt(s, i + 1) && ExpAt(s, DigitsEnd(s, i + 1))
            else ExpAt(s, i)
  {
    hide ExpOk;
    if i < |s| && s[i] == '.' {
      var t := s[i..];
      assert t[1..] == s[i + 1..];
      var n := DigitRun(t[1..]);
      assert t[1 + n..] == s[i + 1 + n..];
      assert DigitAt(s, i + 1) <==> n > 0;
    }
  }

  /** Where the digits of an exponent at i start. */
  function ExpDigits(s: string, i: nat): nat {
    if i + 1 < |s| && IsSign(s[i + 1]) then i + 2 else i + 1
  }

  lemma ExpStage(s: string, i: nat)
    requires i <= |s|
    ensures ExpAt(s, i) <==>
            if i < |s| && (s[i] == 'e' || s[i] == 'E') then
              DigitAt(s, ExpDigits(s, i)) && DigitsEnd(s, ExpDigits(s, i)) == |s|
            else i == |s|
  {
    if i < |s| {
      var t := s[i..];
      assert t[1..] == s[i + 1..];
      var k := ExpDigits(s, i);
      assert Unsigned(t[1..]) == s[k..];
      assert k < |s| ==> (DigitAt(s, k) <==> DigitRun(s[k..]) > 0);
    }
  }

  // ---------- the index-scanning method ----------

  /** Advances over digits from j. */
  method SkipDigits(s: string, j: nat) returns (i: nat)
    requires j <= |s|
    ensures i == DigitsEnd(s, j)
  {
    i := j;
    while i < |s| && '0' <= s[i] <= '9'
      invariant j <= i <= |s|
      invariant DigitsEnd(s, j) == DigitsEnd(s, i)
    {
      assert s[i..][1..] == s[i + 1..];
      i := i + 1;
    }
  }

  method IsJsonNumber(s: string) returns (ok: bool)
    ensures ok == NumberOk(s)
    ensures ok <==> IsNumber(s)
  {
    hide NumberOk, IntFracExpAt, FracExpAt, ExpAt, DigitsEnd, IsNumber;
    NumberOkIsNumber(s);
    MinusStage(s);
    if s == "" {
      IntStage(s, 0);
      return false;
    }
    var i := 0;
    if s[0] == '-' {
      i := 1;
    }
    IntStage(s, i);
    if i >= |s| {
      return false;
    }
    if s[i] == '0' {
      i := i + 1;
    } else if '1' <= s[i] <= '9' {
      i := SkipDigits(s, i);
    } else {
      return false;
    }
    assert NumberOk(s) == FracExpAt(s, i);
    FracStage(s, i);
    if i < |s| && s[i] == '.' {
      i := i + 1;
      if i >= |s| || s[i] < '0' || s[i] > '9' {
        return false;
      }
      i := SkipDigits(s, i);
    }
    assert NumberOk(s) == ExpAt(s, i);
    ExpStage(s, i);
    if i < |s| && (s[i] == 'e' || s[i] == 'E') {
      i := i + 1;
      if i < |s| && (s[i] == '+' || s[i] == '-') {
        i := i + 1;
      }
      if i >= |s| || s[i] < '0' || s[i] > '9' {
        return false;
      }
      i := SkipDigits(s, i);
    }
    return i == |s|;
  }
}
