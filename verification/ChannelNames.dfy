/** The two registry names of a channel, as sprintf prints them. */
module ChannelNames {
  import opened Words
  import opened RegistrySpec

  function Digit(d: nat): char
    requires d < 10
  {
    '0' + d as char
  }

  function Decimal(n: nat): (s: string)
    ensures |s| > 0
  {
    if n < 10 then [Digit(n)] else Decimal(n / 10) + [Digit(n % 10)]
  }

  // %d of an unsigned.
  function Printed(w: word): string {
    if ToInt(w) >= 0 then Decimal(w) else "-" + Decimal(-ToInt(w))
  }

  function Suffix(up: bool): string { if up then "_up" else "_down" }

  function Name(number: word, up: bool): string { "_mpi_channel_" + Printed(number) + Suffix(up) }

  // Core 0 sends up and core 1 sends down.
  function SendName(core: Core, number: word): string { Name(number, core == 0) }
  function RecvName(core: Core, number: word): string { Name(number, core != 0) }

  // What the format strings give: %d of a word from 2^31 on is negative.
  lemma NamesSpelled()
    ensures SendName(0, 7) == "_mpi_channel_7_up" && RecvName(0, 7) == "_mpi_channel_7_down"
    ensures SendName(1, 40) == "_mpi_channel_40_down" && RecvName(1, 40) == "_mpi_channel_40_up"
    ensures Printed(0xFFFF_FFF6) == "-10"
  {
    assert Decimal(7) == "7" && Decimal(4) == "4" && Decimal(1) == "1";
    assert Decimal(40) == "4" + "0" && Decimal(10) == "1" + "0";
  }

  lemma {:induction false} DecimalInjective(m: nat, n: nat)
    requires Decimal(m) == Decimal(n)
    ensures m == n
  {
    var s, t := Decimal(m), Decimal(n);
    assert s[|s| - 1] == Digit(m % 10) && t[|t| - 1] == Digit(n % 10);
    if m >= 10 && n >= 10 {
      assert Decimal(m / 10) == s[..|s| - 1] == t[..|t| - 1] == Decimal(n / 10);
      DecimalInjective(m / 10, n / 10);
    }
  }

  lemma {:induction false} DecimalDigits(n: nat, k: nat)
    requires k > 0 && n < Tens(k)
    ensures |Decimal(n)| <= k
  {
    if n >= 10 {
      DecimalDigits(n / 10, k - 1);
    }
  }

  function Tens(k: nat): nat { if k == 0 then 1 else 10 * Tens(k - 1) }

  lemma {:induction false} DecimalNoSign(n: nat)
    ensures Decimal(n)[0] != '-'
  {
    if n >= 10 {
      DecimalNoSign(n / 10);
    }
  }

  lemma PrintedInjective(a: word, b: word)
    requires Printed(a) == Printed(b)
    ensures a == b
  {
    DecimalNoSign(a);
    DecimalNoSign(b);
    var m, n := if ToInt(a) >= 0 then a else -ToInt(a), if ToInt(b) >= 0 then b else -ToInt(b);
    assert Decimal(m) == (if ToInt(a) >= 0 then Printed(a) else Printed(a)[1..]);
    assert Decimal(n) == (if ToInt(b) >= 0 then Printed(b) else Printed(b)[1..]);
    DecimalInjective(m, n);
  }

  // Different channels or directions have different names.
  lemma NameInjective(a: word, up: bool, b: word, up': bool)
    requires Name(a, up) == Name(b, up')
    ensures a == b && up == up'
  {
    var s, t := Name(a, up), Name(b, up');
    assert s[|s| - 1] == (if up then 'p' else 'n') && t[|t| - 1] == (if up' then 'p' else 'n');
    var p := |"_mpi_channel_"|;
    assert s[p..|s| - |Suffix(up)|] == Printed(a) && t[p..|t| - |Suffix(up')|] == Printed(b);
    PrintedInjective(a, b);
  }

  // Every channel name is kept whole, with its terminator, in a name buffer.
  lemma NameShort(number: word, up: bool)
    ensures |Name(number, up)| < NAME_MAX && Stored(Name(number, up)) == Name(number, up)
  {
    assert Tens(10) == 100_0000_0000 by { assert Tens(5) == 10_0000; }
    DecimalDigits(if ToInt(number) >= 0 then number else -ToInt(number), 10);
  }
}
