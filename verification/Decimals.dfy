/** Decimal digits: how the source prints and parses unsigned numbers. */
module Decimals {
  import opened Results

  predicate IsDigit(c: char) {
    '0' <= c <= '9'
  }

  function Decimal(n: nat): (r: string)
    ensures |r| >= 1
  {
    var digit := ['0' + (n % 10) as char];
    if n < 10 then digit else Decimal(n / 10) + digit
  }

  function DigitsValue(s: string): Option<nat> {
    if s == "" then Some(0)
    else
      var n := |s| - 1;
      match DigitsValue(s[..n])
      case None => None
      case Some(v) => if IsDigit(s[n]) then Some(10 * v + (s[n] as int - '0' as int)) else None
  }

  /** A string has a value exactly when it holds digits alone. */
  lemma {:induction false} DigitsAlone(s: string)
    ensures DigitsValue(s).Some? <==> forall i :: 0 <= i < |s| ==> '0' <= s[i] <= '9'
  {
    if s != "" {
      DigitsAlone(s[..|s| - 1]);
    }
  }

  /** What is printed is digits, without leading zeros, and is read back. */
  lemma {:induction false} DecimalRoundTrip(n: nat)
    ensures DigitsValue(Decimal(n)) == Some(n)
    ensures forall i :: 0 <= i < |Decimal(n)| ==> '0' <= Decimal(n)[i] <= '9'
    ensures n > 0 ==> Decimal(n)[0] != '0'
  {
    var s := Decimal(n);
    var k := |s| - 1;
    if n >= 10 {
      DecimalRoundTrip(n / 10);
      assert s[..k] == Decimal(n / 10);
    } else {
      assert s[..k] == "";
    }
    DigitsAlone(s);
  }

  /** `s` shows `n`: its decimal digits, after any number of zeros. */
  ghost predicate ShowsNumber(s: string, n: nat) {
    exists zeros: nat :: Padded(s, zeros, n)
  }

  ghost predicate Padded(s: string, zeros: nat, n: nat) {
    s == seq(zeros, _ => '0') + Decimal(n)
  }

  lemma {:induction false} LeadingZeros(zeros: nat, s: string)
    ensures DigitsValue(seq(zeros, _ => '0') + s) == DigitsValue(s)
    decreases zeros, |s|
  {
    var all := seq(zeros, _ => '0') + s;
    if s != "" {
      LeadingZeros(zeros, s[..|s| - 1]);
      assert all[..|all| - 1] == seq(zeros, _ => '0') + s[..|s| - 1];
    } else if zeros > 0 {
      LeadingZeros(zeros - 1, s);
      assert all[..|all| - 1] == seq(zeros - 1, _ => '0') + s;
    } else {
      assert all == s;
    }
  }

  /** One more digit after a shown number. */
  lemma ShowStep(s: string, zeros: nat, n: nat, d: char) returns (more: nat)
    requires '0' <= d <= '9' && Padded(s, zeros, n)
    ensures Padded(s + [d], more, 10 * n + (d as int - '0' as int))
  {
    var digit := d as int - '0' as int;
    var m := 10 * n + digit;
    assert m / 10 == n && m % 10 == digit && ['0' + digit as char] == [d];
    hide Decimal;
    if n == 0 {
      more := zeros + 1;
      assert Decimal(0) == "0" && Decimal(m) == [d] by { SmallDecimal(m, d); }
      assert seq(zeros, _ => '0') + "0" == seq(more, _ => '0');
    } else {
      more := zeros;
      assert Decimal(m) == Decimal(n) + [d] by { LongDecimal(n, m, d); }
      assert seq(zeros, _ => '0') + Decimal(n) + [d] == seq(zeros, _ => '0') + (Decimal(n) + [d]);
    }
  }

  lemma SmallDecimal(m: nat, d: char)
    requires m < 10 && '0' <= d <= '9' && m == d as int - '0' as int
    ensures Decimal(0) == "0" && Decimal(m) == [d]
  {
  }

  lemma LongDecimal(n: nat, m: nat, d: char)
    requires n > 0 && m / 10 == n && '0' <= d <= '9' && m % 10 == d as int - '0' as int
    ensures Decimal(m) == Decimal(n) + [d]
  {
  }

  lemma {:induction false} DigitsShow(s: string) returns (zeros: nat)
    requires s != "" && DigitsValue(s).Some?
    ensures Padded(s, zeros, DigitsValue(s).value)
  {
    var k := |s| - 1;
    assert s == s[..k] + [s[k]];
    if k == 0 {
      zeros := 0;
      assert DigitsValue(s[..0]) == Some(0);
      SmallDecimal(DigitsValue(s).value, s[0]);
    } else {
      zeros := DigitsShow(s[..k]);
      zeros := ShowStep(s[..k], zeros, DigitsValue(s[..k]).value, s[k]);
    }
  }

  /** A string is read as the number it shows. */
  lemma DigitsExactly(s: string, n: nat)
    requires s != ""
    ensures DigitsValue(s) == Some(n) <==> ShowsNumber(s, n)
  {
    if DigitsValue(s) == Some(n) {
      var zeros := DigitsShow(s);
    }
    if zeros: nat :| Padded(s, zeros, n) {
      LeadingZeros(zeros, Decimal(n));
      DecimalRoundTrip(n);
    }
  }
}
