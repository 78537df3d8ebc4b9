/** The name of a segment's artifact: `vtemp/` followed by the ordinal
    formatted with `{:05d}` and the extension `.mkv` (vtrim.py:24, 38). */
module Naming {
  import opened Wrappers
  import opened Text

  const TempDir: string := "vtemp"
  const Extension: string := ".mkv"
  const Width: nat := 5

  predicate IsDigit(c: char) {
    '0' <= c <= '9'
  }

  predicate AllDigits(s: string) {
    forall i | 0 <= i < |s| :: IsDigit(s[i])
  }

  function DigitChar(d: nat): (c: char)
    requires d < 10
  {
    ('0' as int + d) as char
  }

  function DigitValue(c: char): nat
    requires IsDigit(c)
  {
    c as int - '0' as int
  }

  /** `str(n)` for n >= 0: decimal digits without leading zeros. */
  function Digits(n: nat): (s: string)
    ensures s != [] && AllDigits(s)
  {
    if n < 10 then [DigitChar(n)] else Digits(n / 10) + [DigitChar(n % 10)]
  }

  /** The number a string of decimal digits denotes; leading zeros allowed. */
  function ValueOf(s: string): nat
    requires AllDigits(s)
  {
    if s == [] then 0 else ValueOf(s[..|s| - 1]) * 10 + DigitValue(s[|s| - 1])
  }

  function Zeros(k: nat): (z: string)
    ensures |z| == k && forall i | 0 <= i < k :: z[i] == '0'
  {
    if k == 0 then [] else Zeros(k - 1) + ['0']
  }

  /** `format(digits, "0>5")`: left-padded with zeros to at least `width`. */
  function ZeroPad(s: string, width: nat): string {
    if |s| >= width then s else Zeros(width - |s|) + s
  }

  /** `f"{id:05d}" + '.mkv'` */
  function FileName(id: nat): string {
    ZeroPad(Digits(id), Width) + Extension
  }

  /** `pathlib.PurePath.joinpath(outputDir, FileName(id))`, as text. */
  function OutPath(id: nat): string {
    TempDir + "/" + FileName(id)
  }

  /** Reads a name of the form digits + ".mkv" back to the ordinal it encodes. */
  function ParseFileName(name: string): Option<nat> {
    if |name| > |Extension| && name[|name| - |Extension|..] == Extension && AllDigits(name[..|name| - |Extension|])
    then Some(ValueOf(name[..|name| - |Extension|]))
    else None
  }

  lemma {:induction false} ValueOfDigits(n: nat)
    ensures ValueOf(Digits(n)) == n
  {
    if n >= 10 {
      var s := Digits(n / 10);
      assert (s + [DigitChar(n % 10)])[..|s|] == s;
      ValueOfDigits(n / 10);
    }
  }

  lemma {:induction false} ValueOfZeros(k: nat)
    ensures AllDigits(Zeros(k)) && ValueOf(Zeros(k)) == 0
  {
    if k > 0 {
      assert Zeros(k)[..k - 1] == Zeros(k - 1);
      ValueOfZeros(k - 1);
    }
  }

  /** Leading zeros do not change the value. */
  lemma {:induction false} ValueOfLeadingZeros(k: nat, s: string)
    requires AllDigits(s)
    ensures AllDigits(Zeros(k) + s) && ValueOf(Zeros(k) + s) == ValueOf(s)
    decreases |s|
  {
    ValueOfZeros(k);
    var z := Zeros(k) + s;
    if s == [] {
      assert z == Zeros(k);
    } else {
      assert z[..|z| - 1] == Zeros(k) + s[..|s| - 1];
      assert z[|z| - 1] == s[|s| - 1];
      ValueOfLeadingZeros(k, s[..|s| - 1]);
    }
  }

  /** The name encodes its ordinal: formatting is inverted by ParseFileName. */
  lemma FileNameRoundTrip(id: nat)
    ensures ParseFileName(FileName(id)) == Some(id)
  {
    var d := Digits(id);
    var p := ZeroPad(d, Width);
    var name := p + Extension;
    ValueOfDigits(id);
    if |d| < Width {
      ValueOfLeadingZeros(Width - |d|, d);
    }
    assert AllDigits(p) && ValueOf(p) == id;
    assert name[..|name| - |Extension|] == p;
    assert name[|name| - |Extension|..] == Extension;
  }

  /** Different ordinals give different names. */
  lemma FileNameInjective(a: nat, b: nat)
    requires FileName(a) == FileName(b)
    ensures a == b
  {
    FileNameRoundTrip(a);
    FileNameRoundTrip(b);
  }

  function Pow10(k: nat): nat {
    if k == 0 then 1 else 10 * Pow10(k - 1)
  }

  /** A number below 10^k has at most k digits. */
  lemma {:induction false} DigitsLength(n: nat, k: nat)
    requires 1 <= k && n < Pow10(k)
    ensures |Digits(n)| <= k
  {
    if n >= 10 {
      assert Pow10(1) == 10;
      assert k >= 2;
      assert n / 10 < Pow10(k - 1);
      DigitsLength(n / 10, k - 1);
    }
  }

  /** The five zero-padded digits of an ordinal up to 99999. */
  lemma PaddedDigits(id: nat)
    requires id <= 99999
    ensures var p := ZeroPad(Digits(id), Width);
            |p| == Width && AllDigits(p) && ValueOf(p) == id
  {
    var d := Digits(id);
    assert Pow10(5) == 100000;
    DigitsLength(id, 5);
    ValueOfDigits(id);
    if |d| < Width {
      ValueOfLeadingZeros(Width - |d|, d);
    }
  }

  /** For two digit strings of the same length, code-point order is numeric order. */
  lemma {:induction false} DigitOrder(s: string, t: string)
    requires |s| == |t| && AllDigits(s) && AllDigits(t)
    ensures LexLess(s, t) <==> ValueOf(s) < ValueOf(t)
    ensures s == t <==> ValueOf(s) == ValueOf(t)
    decreases |s|
  {
    if s == [] {
      assert t == [];
    } else {
      var n := |s| - 1;
      var s', t' := s[..n], t[..n];
      var x, y := s[n], t[n];
      assert s == s' + [x] && t == t' + [y];
      DigitOrder(s', t');
      LexLessSnoc(s', t', x, y);
      assert x < y <==> DigitValue(x) < DigitValue(y);
      assert x == y <==> DigitValue(x) == DigitValue(y);
    }
  }

  /** Up to 99999 the names sort as their ordinals do. */
  lemma FileNameOrder(a: nat, b: nat)
    requires a <= 99999 && b <= 99999
    ensures LexLess(FileName(a), FileName(b)) <==> a < b
  {
    PaddedDigits(a);
    PaddedDigits(b);
    var pa, pb := ZeroPad(Digits(a), Width), ZeroPad(Digits(b), Width);
    LexLessCommonSuffix(pa, pb, Extension);
    DigitOrder(pa, pb);
  }

  /** Up to 99999 the names are exactly five digits and the extension. */
  lemma FileNameShape(id: nat)
    requires id <= 99999
    ensures |FileName(id)| == 9 && AllDigits(FileName(id)[..5]) && FileName(id)[5..] == ".mkv"
  {
    PaddedDigits(id);
    var p := ZeroPad(Digits(id), Width);
    assert (p + Extension)[..5] == p && (p + Extension)[5..] == Extension;
  }

  /** The same order holds for the paths inside the temporary directory. */
  lemma OutPathOrder(a: nat, b: nat)
    requires a <= 99999 && b <= 99999
    ensures LexLess(OutPath(a), OutPath(b)) <==> a < b
  {
    FileNameOrder(a, b);
    assert OutPath(a) == (TempDir + "/") + FileName(a);
    assert OutPath(b) == (TempDir + "/") + FileName(b);
    LexLessCommonPrefix(TempDir + "/", FileName(a), FileName(b));
  }

  /** Beyond five digits the padding no longer orders the names: the 100000th
      name sorts before the 99999th. */
  lemma OrderBreaksBeyondFiveDigits()
    ensures LexLess(FileName(100000), FileName(99999))
  {
    assert Digits(99999) == "99999";
    assert Digits(100000) == "100000";
    assert FileName(99999) == "99999.mkv";
    assert FileName(100000) == "100000.mkv";
  }
}
