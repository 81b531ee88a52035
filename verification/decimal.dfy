/** Decimal text of integers, as produced by `ToString(CultureInfo.InvariantCulture)`
    and read back by `int.TryParse(s, NumberStyles.None, CultureInfo.InvariantCulture, out _)`. */
module Decimal {
  import opened Outcomes

  /** Largest value of a C# `int` (System.Int32). */
  const MaxInt32: int := 0x7FFF_FFFF

  predicate IsDigit(c: char) {
    '0' <= c <= '9'
  }

  predicate AllDigits(s: string) {
    forall i :: 0 <= i < |s| ==> IsDigit(s[i])
  }

  function DigitValue(c: char): nat
    requires IsDigit(c)
  {
    c as int - '0' as int
  }

  function DigitChar(d: nat): (c: char)
    requires d < 10
    ensures IsDigit(c) && DigitValue(c) == d
  {
    ('0' as int + d) as char
  }

  /** The number a string of decimal digits denotes, most significant digit first. */
  function Value(s: string): nat
    requires AllDigits(s)
    decreases |s|
  {
    if s == [] then 0 else Value(s[..|s| - 1]) * 10 + DigitValue(s[|s| - 1])
  }

  /** Appending a digit multiplies the value by ten and adds the digit. */
  lemma ValueAppend(s: string, c: char)
    requires AllDigits(s) && IsDigit(c)
    ensures AllDigits(s + [c]) && Value(s + [c]) == Value(s) * 10 + DigitValue(c)
  {
    assert (s + [c])[..|s|] == s;
  }

  /** Shortest decimal text of a natural number: non-empty, digits only, no leading
      zero except for "0" itself, and it denotes `n`. */
  function NatToText(n: nat): (r: string)
    ensures |r| > 0 && AllDigits(r)
    ensures r[0] == '0' ==> r == "0"
    ensures Value(r) == n
    decreases n
  {
    if n < 10 then [DigitChar(n)]
    else
      var prefix := NatToText(n / 10);
      var r := prefix + [DigitChar(n % 10)];
      assert r[..|r| - 1] == prefix;
      r
  }

  /** Invariant-culture text of an integer: a '-' sign for negatives, then the shortest
      digits of the magnitude (no leading zero, except for "0" itself). */
  function IntToText(n: int): (r: string)
    ensures |r| > 0
    ensures r[0] == '-' <==> n < 0
    ensures n < 0 ==> AllDigits(r[1..]) && |r| > 1 && Value(r[1..]) == -n
    ensures n >= 0 ==> AllDigits(r) && Value(r) == n
    ensures n >= 0 && r[0] == '0' ==> r == "0"
    ensures n < 0 ==> r[1] != '0'
  {
    if n < 0 then
      var r := "-" + NatToText(-n);
      assert r[1..] == NatToText(-n);
      r
    else NatToText(n)
  }

  /** `int.TryParse` under `NumberStyles.None`: only the digits '0'..'9', no sign, no
      white space, no separators, and the value must fit in an `int`. */
  function TryParseInt32(s: string): (r: Option<int>)
    ensures r.Some? <==> |s| > 0 && AllDigits(s) && Value(s) <= MaxInt32
    ensures r.Some? ==> 0 <= r.value <= MaxInt32 && r.value == Value(s)
  {
    if |s| > 0 && AllDigits(s) && Value(s) <= MaxInt32 then Some(Value(s)) else None
  }

  /** Parsing the text of a number in the `int` range gives the number back. */
  lemma ParseNatToText(n: nat)
    requires n <= MaxInt32
    ensures TryParseInt32(NatToText(n)) == Some(n)
  {
  }

  /** A run of `z` zero digits. */
  function Zeros(z: nat): (r: string)
    ensures |r| == z && AllDigits(r) && Value(r) == 0
    decreases z
  {
    if z == 0 then []
    else
      var r := Zeros(z - 1) + "0";
      assert r[..|r| - 1] == Zeros(z - 1);
      r
  }

  /** Zero digits in front of a digit string do not change its value. */
  lemma {:induction false} ValueAfterZeros(z: nat, t: string)
    requires AllDigits(t)
    ensures AllDigits(Zeros(z) + t) && Value(Zeros(z) + t) == Value(t)
    decreases |t|
  {
    var u := Zeros(z) + t;
    if t == [] {
      assert u == Zeros(z);
    } else {
      var p := t[..|t| - 1];
      ValueAfterZeros(z, p);
      assert u[..|u| - 1] == Zeros(z) + p;
      assert u[|u| - 1] == t[|t| - 1];
    }
  }

  /** A digit string whose first digit is not '0' denotes a positive number. */
  lemma {:induction false} ValuePositive(s: string)
    requires |s| > 0 && AllDigits(s) && s[0] != '0'
    ensures Value(s) >= 1
    decreases |s|
  {
    if |s| > 1 {
      var p := s[..|s| - 1];
      assert p[0] == s[0];
      ValuePositive(p);
    }
  }

  /** A digit string without a leading zero (other than "0" itself) is the shortest
      text of its own value: the representation is unique. */
  lemma {:induction false} CanonicalText(s: string)
    requires |s| > 0 && AllDigits(s)
    requires s[0] == '0' ==> s == "0"
    ensures NatToText(Value(s)) == s
    decreases |s|
  {
    var c := s[|s| - 1];
    if |s| == 1 {
      assert s == [c];
      assert Value(s) == DigitValue(c);
    } else {
      var p := s[..|s| - 1];
      assert p[0] == s[0] && s[0] != '0';
      CanonicalText(p);
      ValuePositive(p);
      assert s == p + [c];
      assert Value(s) / 10 == Value(p) && Value(s) % 10 == DigitValue(c);
      assert DigitChar(DigitValue(c)) == c;
    }
  }

  /** Every non-empty digit string is some zeros followed by the shortest text of its value. */
  lemma {:induction false} SplitLeadingZeros(s: string) returns (z: nat)
    requires |s| > 0 && AllDigits(s)
    ensures s == Zeros(z) + NatToText(Value(s))
    decreases |s|
  {
    if s[0] != '0' || |s| == 1 {
      z := 0;
      NoLeadingZero(s);
    } else {
      var t := s[1..];
      var z' := SplitLeadingZeros(t);
      z := z' + 1;
      assert s == "0" + t;
      assert Value(s) == Value(t) by {
        assert Zeros(1) == "0";
        ValueAfterZeros(1, t);
      }
      ZeroInFront(t, z', NatToText(Value(t)));
    }
  }

  lemma NoLeadingZero(s: string)
    requires |s| > 0 && AllDigits(s) && (s[0] != '0' || |s| == 1)
    ensures s == Zeros(0) + NatToText(Value(s))
  {
    assert s[0] == '0' ==> s == "0" by {
      if |s| == 1 { assert s == [s[0]]; }
    }
    CanonicalText(s);
    assert Zeros(0) == [];
  }

  lemma ZeroInFront(t: string, z: nat, m: string)
    requires t == Zeros(z) + m
    ensures "0" + t == Zeros(z + 1) + m
  {
    ZerosFront(z);
    assert "0" + (Zeros(z) + m) == ("0" + Zeros(z)) + m;
  }

  lemma {:induction false} ZerosFront(z: nat)
    ensures Zeros(z + 1) == "0" + Zeros(z)
    decreases z
  {
    if z > 0 {
      ZerosFront(z - 1);
      assert Zeros(z + 1) == Zeros(z) + "0";
      assert Zeros(z) == "0" + Zeros(z - 1);
      assert ("0" + Zeros(z - 1)) + "0" == "0" + (Zeros(z - 1) + "0");
    }
  }

  /** `int.TryParse` under `NumberStyles.None` yields `n` exactly for the strings made of
      any number of '0' digits followed by the shortest decimal text of `n`, with `n` in
      the `int` range: nothing else parses, and every such string does. */
  lemma ParseInt32Characterization(s: string, n: nat)
    ensures TryParseInt32(s) == Some(n) <==>
      n <= MaxInt32 && exists z: nat :: s == Zeros(z) + NatToText(n)
  {
    if TryParseInt32(s) == Some(n) {
      var z := SplitLeadingZeros(s);
      assert s == Zeros(z) + NatToText(n);
    }
    if n <= MaxInt32 && exists z: nat :: s == Zeros(z) + NatToText(n) {
      var z: nat :| s == Zeros(z) + NatToText(n);
      ValueAfterZeros(z, NatToText(n));
    }
  }

  lemma ValueOf21474()
    ensures AllDigits("21474") && Value("21474") == 21474
  {
    ValueAppend("", '2');
    ValueAppend("2", '1');
    ValueAppend("21", '4');
    ValueAppend("214", '7');
    ValueAppend("2147", '4');
    assert "" + ['2'] == "2";
    assert "2" + ['1'] == "21";
    assert "21" + ['4'] == "214";
    assert "214" + ['7'] == "2147";
    assert "2147" + ['4'] == "21474";
  }

  lemma ValueOf214748364()
    ensures AllDigits("214748364") && Value("214748364") == 214748364
  {
    ValueOf21474();
    ValueAppend("21474", '8');
    ValueAppend("214748", '3');
    ValueAppend("2147483", '6');
    ValueAppend("21474836", '4');
    assert "21474" + ['8'] == "214748";
    assert "214748" + ['3'] == "2147483";
    assert "2147483" + ['6'] == "21474836";
    assert "21474836" + ['4'] == "214748364";
  }

  /** The text of the largest `int`, and of one more. */
  lemma ValueOfInt32Limit()
    ensures AllDigits("2147483647") && Value("2147483647") == MaxInt32
    ensures AllDigits("2147483648") && Value("2147483648") == MaxInt32 + 1
  {
    ValueOf214748364();
    ValueAppend("214748364", '7');
    ValueAppend("214748364", '8');
    assert "214748364" + ['7'] == "2147483647";
    assert "214748364" + ['8'] == "2147483648";
  }

  /** Leading zeros do not change the value. */
  lemma ValueLeadingZeros()
    ensures AllDigits("0007") && Value("0007") == 7
  {
    ValueAppend("", '0');
    ValueAppend("0", '0');
    ValueAppend("00", '0');
    ValueAppend("000", '7');
    assert "" + ['0'] == "0";
    assert "0" + ['0'] == "00";
    assert "00" + ['0'] == "000";
    assert "000" + ['7'] == "0007";
  }
}
