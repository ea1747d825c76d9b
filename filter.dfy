/**
  `getFilter`: the BPF expression selecting TCP traffic whose source or
  destination port is the configured one, with the port printed in decimal by
  `fmt.Sprintf("%v")`. The parser is the partner: it reads the port back.
 */
module Filter {
  import opened Common

  /** A Go `uint16`. */
  type uint16 = p: int | 0 <= p < 0x1_0000

  const HEAD: string := "tcp and ((src port "
  const MIDDLE: string := ") or (dst port "
  const TAIL: string := "))"

  predicate IsDigit(ch: char) {
    '0' <= ch <= '9'
  }

  predicate AllDigits(s: string) {
    forall i :: 0 <= i < |s| ==> IsDigit(s[i])
  }

  function DigitChar(d: nat): (ch: char)
    requires d < 10
    ensures IsDigit(ch)
  {
    "0123456789"[d]
  }

  function DigitValue(ch: char): nat
    requires IsDigit(ch)
  {
    ch as int - '0' as int
  }

  /** `%v` of an unsigned integer: its decimal digits, without leading zeros. */
  function Decimal(n: nat): (s: string)
    ensures |s| >= 1 && AllDigits(s)
    ensures s[0] == '0' <==> n == 0
    decreases n
  {
    if n < 10 then [DigitChar(n)] else Decimal(n / 10) + [DigitChar(n % 10)]
  }

  function ParseDecimal(s: string): nat
    requires AllDigits(s)
    decreases |s|
  {
    if s == [] then 0 else 10 * ParseDecimal(s[..|s| - 1]) + DigitValue(s[|s| - 1])
  }

  /** The filter string for `port`. */
  function GetFilter(port: uint16): string {
    HEAD + Decimal(port) + MIDDLE + Decimal(port) + TAIL
  }

  /**
    Reads a filter of that shape back: both clauses must name the same decimal
    port, which is returned.
   */
  function ParseFilter(s: string): Option<nat> {
    if |s| < |HEAD| + |MIDDLE| + |TAIL| || s[..|HEAD|] != HEAD || s[|s| - |TAIL|..] != TAIL then None
    else
      var m := s[|HEAD|..|s| - |TAIL|];
      if (|m| - |MIDDLE|) % 2 != 0 then None
      else
        var k := (|m| - |MIDDLE|) / 2;
        if k == 0 || m[k..k + |MIDDLE|] != MIDDLE || m[..k] != m[k + |MIDDLE|..] || !AllDigits(m[..k]) then None
        else Some(ParseDecimal(m[..k]))
  }

  lemma {:induction false} DecimalRoundTrip(n: nat)
    ensures ParseDecimal(Decimal(n)) == n
    decreases n
  {
    var s := Decimal(n);
    if n < 10 {
      assert s[..0] == [];
    } else {
      DecimalRoundTrip(n / 10);
      assert s[..|s| - 1] == Decimal(n / 10);
    }
  }

  /** The port can be read back from the filter, from either clause. */
  lemma FilterRoundTrip(port: uint16)
    ensures ParseFilter(GetFilter(port)) == Some(port)
  {
    var d := Decimal(port);
    var s := GetFilter(port);
    assert s == HEAD + (d + MIDDLE + d) + TAIL;
    assert s[..|HEAD|] == HEAD;
    assert s[|s| - |TAIL|..] == TAIL;
    var m := s[|HEAD|..|s| - |TAIL|];
    assert m == d + MIDDLE + d;
    var k := |d|;
    assert (|m| - |MIDDLE|) / 2 == k;
    assert m[..k] == d && m[k..k + |MIDDLE|] == MIDDLE && m[k + |MIDDLE|..] == d;
    DecimalRoundTrip(port);
  }

  /** Different ports give different filters. */
  lemma FilterInjective(p: uint16, q: uint16)
    ensures GetFilter(p) == GetFilter(q) <==> p == q
  {
    FilterRoundTrip(p);
    FilterRoundTrip(q);
  }

  lemma DecimalOf3306()
    ensures Decimal(3306) == "3306"
  {
    assert Decimal(3) == "3";
    assert Decimal(33) == "33";
    assert Decimal(330) == "330";
  }

  /** The MySQL port gives the literal expression. */
  lemma FilterFor3306()
    ensures GetFilter(3306) == "tcp and ((src port 3306) or (dst port 3306))"
  {
    DecimalOf3306();
    var src := "tcp and ((src port 3306";
    var dst := ") or (dst port 3306))";
    assert HEAD + "3306" == src;
    assert MIDDLE + "3306" + TAIL == dst;
    assert GetFilter(3306) == src + dst;
  }
}
