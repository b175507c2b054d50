/** Python's `int(s)` on a string, as `check_block_needed` applies it to a time
    string with its colons removed. The conversion either yields an integer or
    raises `ValueError`, which the model returns as `None`.

    What `int` accepts (base 10): surrounding whitespace, an optional `+` or `-`,
    then decimal digits in groups separated by single underscores; leading
    zeros are allowed. */
module PyInt {
  import opened Wrappers

  predicate IsDigit(c: char) { '0' <= c <= '9' }

  function DigitValue(c: char): (d: nat)
    requires IsDigit(c)
    ensures d < 10
  {
    (c as int) - ('0' as int)
  }

  function DigitChar(d: nat): (c: char)
    requires d < 10
    ensures IsDigit(c) && DigitValue(c) == d
  {
    ((('0' as int) + d) as char)
  }

  /** The ASCII whitespace that `int` skips around its argument. */
  predicate IsSpace(c: char) {
    c == ' ' || c == '\t' || c == '\n' || c == '\r' || c == '\U{000B}' || c == '\U{000C}'
  }

  function TrimStart(s: string): (t: string)
    ensures |t| <= |s|
    ensures t == [] || !IsSpace(t[0])
    ensures (s == [] || !IsSpace(s[0])) ==> t == s
  {
    if s != [] && IsSpace(s[0]) then TrimStart(s[1..]) else s
  }

  function TrimEnd(s: string): (t: string)
    ensures |t| <= |s| && (t != [] ==> t[0] == s[0])
    ensures t == [] || !IsSpace(t[|t| - 1])
    ensures (s == [] || !IsSpace(s[|s| - 1])) ==> t == s
  {
    if s != [] && IsSpace(s[|s| - 1]) then TrimEnd(s[..|s| - 1]) else s
  }

  /** `str.strip()` restricted to ASCII whitespace. */
  function Strip(s: string): (t: string)
    ensures t == [] || (!IsSpace(t[0]) && !IsSpace(t[|t| - 1]))
    ensures (s == [] || (!IsSpace(s[0]) && !IsSpace(s[|s| - 1]))) ==> t == s
  {
    var front := TrimStart(s);
    assert (s == [] || (!IsSpace(s[0]) && !IsSpace(s[|s| - 1]))) ==> front == s;
    TrimEnd(front)
  }

  /** Every character of `s` is whitespace. */
  predicate AllSpace(s: string) {
    forall k :: 0 <= k < |s| ==> IsSpace(s[k])
  }

  /** `TrimStart` drops a run of leading whitespace and nothing else. */
  lemma {:induction false} TrimStartDrops(s: string)
    ensures exists i :: 0 <= i <= |s| && TrimStart(s) == s[i..] && AllSpace(s[..i])
  {
    if s != [] && IsSpace(s[0]) {
      TrimStartDrops(s[1..]);
      var i :| 0 <= i <= |s[1..]| && TrimStart(s[1..]) == s[1..][i..] && AllSpace(s[1..][..i]);
      SlicesAfterHead(s, i);
      AllSpaceCons(s[0], s[1..][..i]);
      assert TrimStart(s) == s[i + 1..] && AllSpace(s[..i + 1]);
    } else {
      WholeSlices(s);
      assert TrimStart(s) == s[0..] && AllSpace(s[..0]);
    }
  }

  /** `TrimEnd` drops a run of trailing whitespace and nothing else. */
  lemma {:induction false} TrimEndDrops(s: string)
    ensures exists j :: 0 <= j <= |s| && TrimEnd(s) == s[..j] && AllSpace(s[j..])
  {
    if s != [] && IsSpace(s[|s| - 1]) {
      var init := s[..|s| - 1];
      TrimEndDrops(init);
      var j :| 0 <= j <= |init| && TrimEnd(init) == init[..j] && AllSpace(init[j..]);
      SlicesBeforeLast(s, j);
      AllSpaceSnoc(init[j..], s[|s| - 1]);
      assert TrimEnd(s) == s[..j] && AllSpace(s[j..]);
    } else {
      WholeSlices(s);
      assert TrimEnd(s) == s[..|s|] && AllSpace(s[|s|..]);
    }
  }

  lemma SlicesAfterHead(s: string, i: nat)
    requires i < |s|
    ensures s[1..][i..] == s[i + 1..] && s[..i + 1] == [s[0]] + s[1..][..i]
  {
  }

  lemma SlicesBeforeLast(s: string, j: nat)
    requires j < |s|
    ensures s[..|s| - 1][..j] == s[..j] && s[j..] == s[..|s| - 1][j..] + [s[|s| - 1]]
  {
  }

  lemma WholeSlices(s: string)
    ensures s[0..] == s && s[..|s|] == s && s[..0] == [] && s[|s|..] == []
  {
  }

  lemma AllSpaceCons(c: char, t: string)
    requires IsSpace(c) && AllSpace(t)
    ensures AllSpace([c] + t)
  {
    forall k | 0 <= k < |[c] + t|
      ensures IsSpace(([c] + t)[k])
    {
      if k > 0 { assert ([c] + t)[k] == t[k - 1]; }
    }
  }

  lemma AllSpaceSnoc(t: string, c: char)
    requires AllSpace(t) && IsSpace(c)
    ensures AllSpace(t + [c])
  {
    forall k | 0 <= k < |t + [c]|
      ensures IsSpace((t + [c])[k])
    {
      if k < |t| { assert (t + [c])[k] == t[k]; }
    }
  }

  /** `Strip` keeps a contiguous middle part of its argument and drops only
      whitespace on either side of it. */
  lemma {:induction false} StripDrops(s: string)
    ensures exists i, j :: 0 <= i <= j <= |s| && Strip(s) == s[i..j] && AllSpace(s[..i]) && AllSpace(s[j..])
  {
    TrimStartDrops(s);
    var i :| 0 <= i <= |s| && TrimStart(s) == s[i..] && AllSpace(s[..i]);
    var front := s[i..];
    TrimEndDrops(front);
    var j :| 0 <= j <= |front| && TrimEnd(front) == front[..j] && AllSpace(front[j..]);
    SliceOfSlice(s, i, j);
    assert Strip(s) == s[i..i + j];
  }

  lemma SliceOfSlice(s: string, i: nat, j: nat)
    requires i + j <= |s|
    ensures s[i..][..j] == s[i..i + j] && s[i..][j..] == s[i + j..]
  {
  }

  /** A non-empty run of digits in which every underscore stands between two digits. */
  predicate WellFormedDigits(s: string) {
    && |s| > 0
    && IsDigit(s[0])
    && IsDigit(s[|s| - 1])
    && DigitsOrUnderscores(s)
    && NoDoubleUnderscore(s)
  }

  predicate NoDoubleUnderscore(s: string) {
    |s| < 2 || (!(s[0] == '_' && s[1] == '_') && NoDoubleUnderscore(s[1..]))
  }

  /** A string of digits alone has no two underscores in a row. */
  lemma {:induction false} AllDigitsNoDoubleUnderscore(s: string)
    requires forall i :: 0 <= i < |s| ==> IsDigit(s[i])
    ensures NoDoubleUnderscore(s)
  {
    if |s| >= 2 {
      AllDigitsNoDoubleUnderscore(s[1..]);
    }
  }

  predicate DigitsOrUnderscores(s: string) {
    forall i :: 0 <= i < |s| ==> IsDigit(s[i]) || s[i] == '_'
  }

  /** The decimal value of the digits of `s`, underscores ignored. */
  function DigitsValue(s: string): nat
    requires DigitsOrUnderscores(s)
  {
    if s == [] then 0
    else if s[|s| - 1] == '_' then DigitsValue(s[..|s| - 1])
    else DigitsValue(s[..|s| - 1]) * 10 + DigitValue(s[|s| - 1])
  }

  function ParseDigits(s: string): (r: Option<nat>)
    ensures r.Some? <==> WellFormedDigits(s)
  {
    if WellFormedDigits(s) then Some(DigitsValue(s)) else None
  }

  /** `int(s)`: `None` stands for the `ValueError` Python raises. */
  function ParseInt(s: string): (r: Option<int>)
    ensures WellFormedDigits(Strip(s)) ==> r == Some(DigitsValue(Strip(s)))
    ensures r.Some? ==> Strip(s) != []
  {
    var t := Strip(s);
    if t != [] && (t[0] == '+' || t[0] == '-') then
      match ParseDigits(t[1..])
      case None => None
      case Some(n) => Some(if t[0] == '-' then 0 - n else n)
    else
      ParseDigits(t)
  }

  /** A well-formed digit string, without sign or whitespace, converts to its value. */
  lemma {:induction false} ParseIntDigits(s: string)
    requires WellFormedDigits(s)
    ensures ParseInt(s) == Some(DigitsValue(s))
  {
    assert !IsSpace(s[0]) && !IsSpace(s[|s| - 1]);
  }

  /** `int` succeeds exactly on a well-formed digit string, optionally signed,
      inside surrounding whitespace; a leading '-' negates the value. */
  lemma ParseIntCases(s: string)
    ensures ParseInt(s).Some? <==>
              WellFormedDigits(Strip(s)) ||
              (Strip(s) != [] && (Strip(s)[0] == '+' || Strip(s)[0] == '-') && WellFormedDigits(Strip(s)[1..]))
    ensures Strip(s) != [] && Strip(s)[0] == '+' && WellFormedDigits(Strip(s)[1..]) ==>
              ParseInt(s) == Some(DigitsValue(Strip(s)[1..]))
    ensures Strip(s) != [] && Strip(s)[0] == '-' && WellFormedDigits(Strip(s)[1..]) ==>
              ParseInt(s) == Some(0 - DigitsValue(Strip(s)[1..]) as int)
  {
  }

  /** `int(" 7 ")` is 7: surrounding whitespace is skipped. */
  lemma PaddedExample()
    ensures ParseInt(" 7 ") == Some(7)
  {
    assert " 7 "[1..] == "7 ";
    assert TrimStart(" 7 ") == "7 ";
    assert "7 "[..1] == "7";
    assert TrimEnd("7 ") == "7";
    assert WellFormedDigits("7");
    assert "7"[..0] == [];
    ParseIntCases(" 7 ");
  }

  /** `int("-05")` is -5: a sign and leading zeros are accepted. */
  lemma SignedExample()
    ensures ParseInt("-05") == Some(-5)
  {
    var digits := "05";
    assert "-05"[1..] == digits;
    AllDigitsNoDoubleUnderscore(digits);
    assert WellFormedDigits(digits);
    assert digits[..1] == "0" && "0"[..0] == [];
    ParseIntCases("-05");
  }

  /** `int("9am")` and `int("1__0")` raise. */
  lemma RejectedExamples()
    ensures ParseInt("9am") == None
    ensures ParseInt("1__0") == None
  {
    assert !WellFormedDigits("9am") by { assert !DigitsOrUnderscores("9am") by { assert "9am"[1] == 'a'; } }
    ParseIntCases("9am");
    assert !NoDoubleUnderscore("1__0") by {
      assert "1__0"[1..] == "__0";
    }
    ParseIntCases("1__0");
  }

  /** The decimal rendering of `n`, the way `str(n)` writes it. */
  function Decimal(n: nat): (s: string)
    ensures |s| > 0
    ensures forall i :: 0 <= i < |s| ==> IsDigit(s[i])
    decreases n
  {
    if n < 10 then [DigitChar(n)] else Decimal(n / 10) + [DigitChar(n % 10)]
  }

  /** `int(str(n)) == n` for every natural number. */
  lemma {:induction false} DecimalRoundTrip(n: nat)
    ensures ParseInt(Decimal(n)) == Some(n)
  {
    var s := Decimal(n);
    assert IsDigit(s[0]) && IsDigit(s[|s| - 1]);
    AllDigitsNoDoubleUnderscore(s);
    assert WellFormedDigits(s);
    ParseIntDigits(s);
    DecimalValue(n);
  }

  lemma {:induction false} DecimalValue(n: nat)
    ensures DigitsValue(Decimal(n)) == n
    decreases n
  {
    if n >= 10 {
      DecimalValue(n / 10);
      var s := Decimal(n);
      assert s[..|s| - 1] == Decimal(n / 10);
    }
  }
}
