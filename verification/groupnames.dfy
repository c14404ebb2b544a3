/** Group identifiers `f"GROUP-{group_counter:03d}"` (analyze_dependencies.py:325):
    the counter in decimal, zero-padded to at least three digits. */
module GroupNames {
  import opened Seqs
  import opened Tasks

  const GroupPrefix: string := "GROUP-"
  const PadWidth: nat := 3

  predicate IsDigit(c: char) {
    '0' <= c <= '9'
  }

  predicate AllDigits(s: string) {
    forall i :: 0 <= i < |s| ==> IsDigit(s[i])
  }

  function DigitChar(d: nat): (c: char)
    requires d < 10
    ensures IsDigit(c)
  {
    (48 + d) as char
  }

  function DigitValue(c: char): (d: nat)
    requires IsDigit(c)
    ensures d < 10
  {
    (c as int) - 48
  }

  /** `str(n)`: decimal digits, most significant first, no leading zero. */
  function Decimal(n: nat): (s: string)
    ensures 1 <= |s| && AllDigits(s)
    ensures |s| == 1 <==> n < 10
  {
    if n < 10 then [DigitChar(n)] else Decimal(n / 10) + [DigitChar(n % 10)]
  }

  /** The number a string of digits denotes; leading zeros count for nothing. */
  function ValueOf(s: string): nat
    requires AllDigits(s)
  {
    if |s| == 0 then 0 else ValueOf(s[..|s| - 1]) * 10 + DigitValue(s[|s| - 1])
  }

  /** Left-pad with zeros up to `width` characters, as the `0` flag does. */
  function ZeroPad(s: string, width: nat): (r: string)
    ensures |r| == if |s| < width then width else |s|
    ensures r[|r| - |s|..] == s
    ensures forall i :: 0 <= i < |r| - |s| ==> r[i] == '0'
  {
    if |s| < width then Repeat('0', width - |s|) + s else s
  }

  /** The identifier of the `n`-th group. */
  function GroupName(n: nat): string {
    GroupPrefix + ZeroPad(Decimal(n), PadWidth)
  }

  /** Read a group identifier back: the prefix followed by at least one digit. */
  function ParseGroupName(name: string): Option<nat> {
    if |name| > |GroupPrefix| && name[..|GroupPrefix|] == GroupPrefix && AllDigits(name[|GroupPrefix|..])
    then Some(ValueOf(name[|GroupPrefix|..]))
    else None
  }

  lemma {:induction false} DecimalValue(n: nat)
    ensures ValueOf(Decimal(n)) == n
  {
    if n >= 10 {
      DecimalValue(n / 10);
      var s := Decimal(n);
      assert s[..|s| - 1] == Decimal(n / 10);
    }
  }

  lemma {:induction false} ZerosValue(k: nat)
    ensures AllDigits(Repeat('0', k)) && ValueOf(Repeat('0', k)) == 0
  {
    if k > 0 {
      ZerosValue(k - 1);
      var z := Repeat('0', k);
      assert z[..k - 1] == Repeat('0', k - 1);
    }
  }

  /** Leading zeros do not change the value. */
  lemma {:induction false} LeadingZerosValue(k: nat, s: string)
    requires AllDigits(s)
    ensures AllDigits(Repeat('0', k) + s)
    ensures ValueOf(Repeat('0', k) + s) == ValueOf(s)
    decreases |s|
  {
    var z := Repeat('0', k);
    ZerosValue(k);
    if |s| == 0 {
      assert z + s == z;
    } else {
      var init := s[..|s| - 1];
      LeadingZerosValue(k, init);
      assert (z + s)[..|z + s| - 1] == z + init;
    }
  }

  lemma PaddedValue(n: nat)
    ensures AllDigits(ZeroPad(Decimal(n), PadWidth))
    ensures ValueOf(ZeroPad(Decimal(n), PadWidth)) == n
  {
    var s := Decimal(n);
    DecimalValue(n);
    if |s| < PadWidth {
      LeadingZerosValue(PadWidth - |s|, s);
    }
  }

  /** Reading a generated identifier gives back its counter. */
  lemma GroupNameRoundTrip(n: nat)
    ensures ParseGroupName(GroupName(n)) == Some(n)
  {
    var body := ZeroPad(Decimal(n), PadWidth);
    PaddedValue(n);
    var name := GroupName(n);
    assert name[..|GroupPrefix|] == GroupPrefix;
    assert name[|GroupPrefix|..] == body;
  }

  /** Different counters give different identifiers. */
  lemma GroupNameInjective(m: nat, n: nat)
    requires m != n
    ensures GroupName(m) != GroupName(n)
  {
    GroupNameRoundTrip(m);
    GroupNameRoundTrip(n);
  }

  /** Below 1000 every identifier has the same width: "GROUP-001" to "GROUP-999". */
  lemma GroupNameWidth(n: nat)
    ensures |GroupName(n)| >= |GroupPrefix| + PadWidth
    ensures n < 1000 ==> |GroupName(n)| == |GroupPrefix| + PadWidth
  {
    if n < 1000 {
      DecimalLength(n);
    }
  }

  lemma {:induction false} DecimalLength(n: nat)
    requires n < 1000
    ensures |Decimal(n)| <= 3
  {
    if n >= 10 {
      DecimalLength(n / 10);
      if n / 10 >= 10 {
        assert n / 10 / 10 < 10;
      }
    }
  }
}
