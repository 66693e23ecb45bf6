/**
 * Rust's `str::parse::<u64>()` (`u64::from_str`), which turns the text of a
 * content-length property into an entry's size: an optional single leading `+`,
 * then one or more ASCII decimal digits whose value fits in 64 bits. Anything
 * else -- an empty text, a lone `+`, a `-`, a space, a digit-free text, an
 * overflowing value -- is an error.
 */
module Decimal {
  import opened Common

  const Two64: int := 0x1_0000_0000_0000_0000

  /** Rust's `u64`. */
  newtype u64 = x: int | 0 <= x < 0x1_0000_0000_0000_0000

  predicate IsDigit(c: char) { '0' <= c <= '9' }

  predicate AllDigits(s: string) { forall k :: 0 <= k < |s| ==> IsDigit(s[k]) }

  /** The value of a string of decimal digits, most significant first (empty reads as 0). */
  function Value(ds: string): nat
    requires AllDigits(ds)
    decreases |ds|
  {
    if ds == [] then 0
    else Value(ds[..|ds| - 1]) * 10 + (ds[|ds| - 1] as int - '0' as int)
  }

  /** The digits after the optional leading `+`. */
  function Digits(s: string): string
  {
    if |s| > 0 && s[0] == '+' then s[1..] else s
  }

  /** `u64::from_str`: `None` is the `ParseIntError` of every rejected text. */
  function ParseU64(s: string): (r: Option<u64>)
    ensures r.Some? <==> Digits(s) != [] && AllDigits(Digits(s)) && Value(Digits(s)) < Two64
    ensures r.Some? ==> forall k :: 0 <= k < |s| ==> IsDigit(s[k]) || (k == 0 && s[k] == '+')
    ensures r.Some? ==> r.value as int == Value(Digits(s))
  {
    var ds := Digits(s);
    if ds == [] || !AllDigits(ds) then None
    else if Value(ds) < Two64 then Some(Value(ds) as u64)
    else None
  }

  /** The shortest decimal spelling of `n`, as Rust's `to_string` writes it. */
  function ToDecimal(n: nat): (ds: string)
    ensures ds != [] && AllDigits(ds)
    decreases n
  {
    var d := ['0' + (n % 10) as char];
    if n < 10 then d else ToDecimal(n / 10) + d
  }

  /** Reading back what ToDecimal wrote gives the number again. */
  lemma {:induction false} ValueOfDecimal(n: nat)
    ensures Value(ToDecimal(n)) == n
    decreases n
  {
    var ds := ToDecimal(n);
    if n >= 10 {
      ValueOfDecimal(n / 10);
      assert ds[..|ds| - 1] == ToDecimal(n / 10);
    }
  }

  /** Every u64 survives a trip through its decimal spelling, with or without a leading `+`. */
  lemma ParseDecimalRoundTrip(v: u64)
    ensures ParseU64(ToDecimal(v as nat)) == Some(v)
    ensures ParseU64("+" + ToDecimal(v as nat)) == Some(v)
  {
    var ds := ToDecimal(v as nat);
    ValueOfDecimal(v as nat);
    assert Digits(ds) == ds;
    assert Digits("+" + ds) == ds;
  }

  /** `k` zero digits. */
  function Zeros(k: nat): (z: string)
    ensures |z| == k && AllDigits(z)
  {
    seq(k, _ => '0')
  }

  /** Zero digits alone read as 0. */
  lemma {:induction false} ValueOfZeros(k: nat)
    ensures Value(Zeros(k)) == 0
    decreases k
  {
    if k > 0 {
      ValueOfZeros(k - 1);
      assert Zeros(k)[..k - 1] == Zeros(k - 1);
    }
  }

  /** Leading zero digits do not change the value of a digit string. */
  lemma {:induction false} ValueLeadingZeros(k: nat, ds: string)
    requires AllDigits(ds)
    ensures AllDigits(Zeros(k) + ds) && Value(Zeros(k) + ds) == Value(ds)
    decreases |ds|
  {
    var zs := Zeros(k) + ds;
    assert AllDigits(zs) by {
      forall i | 0 <= i < |zs|
        ensures IsDigit(zs[i])
      {
        if i >= k { assert zs[i] == ds[i - k]; }
      }
    }
    if ds == [] {
      assert zs == Zeros(k);
      ValueOfZeros(k);
    } else {
      var init := ds[..|ds| - 1];
      ValueLeadingZeros(k, init);
      assert zs[..|zs| - 1] == Zeros(k) + init;
      assert zs[|zs| - 1] == ds[|ds| - 1];
    }
  }

  /** A size written with any number of leading zeros, with or without a leading `+`, parses to its value. */
  lemma ParseLeadingZeros(k: nat, v: u64)
    ensures ParseU64(Zeros(k) + ToDecimal(v as nat)) == Some(v)
    ensures ParseU64("+" + Zeros(k) + ToDecimal(v as nat)) == Some(v)
  {
    var ds := ToDecimal(v as nat);
    var zs := Zeros(k) + ds;
    ValueOfDecimal(v as nat);
    ValueLeadingZeros(k, ds);
    assert zs[0] != '+' by {
      assert IsDigit(zs[0]);
    }
    assert Digits(zs) == zs;
    assert "+" + Zeros(k) + ds == "+" + zs;
    assert Digits("+" + zs) == zs;
  }

  /** Every value at or above 2^64 is rejected, as Rust reports a positive overflow. */
  lemma ParseRejectsOverflow(n: nat)
    requires n >= Two64
    ensures ParseU64(ToDecimal(n)).None?
    ensures ParseU64("+" + ToDecimal(n)).None?
  {
    var ds := ToDecimal(n);
    ValueOfDecimal(n);
    assert Digits(ds) == ds;
    assert Digits("+" + ds) == ds;
  }

  /** Accepted content-length texts. */
  lemma ParseU64Accepts()
    ensures ParseU64("4096") == Some(4096)
    ensures ParseU64("+7") == Some(7)
    ensures ParseU64("007") == Some(7)
  {
    assert Digits("4096") == "4096";
    assert Value("4096") == 4096 by {
      assert "4096"[..3] == "409" && "409"[..2] == "40" && "40"[..1] == "4" && "4"[..0] == "";
    }
    assert Digits("+7") == "7";
    assert Value("7") == 7 by { assert "7"[..0] == ""; }
    assert Digits("007") == "007";
    assert Value("007") == 7 by {
      assert "007"[..2] == "00" && "00"[..1] == "0" && "0"[..0] == "";
    }
  }

  /** Rejected content-length texts: no digits, a sign other than `+`, or surrounding space. */
  lemma ParseU64Rejects()
    ensures ParseU64("abc").None?
    ensures ParseU64("").None?
    ensures ParseU64("+").None?
    ensures ParseU64("-1").None?
    ensures ParseU64(" 1").None?
  {
    assert !IsDigit("abc"[0]);
    assert !IsDigit("-1"[0]);
    assert !IsDigit(" 1"[0]);
    assert Digits("+") == "";
  }
}
