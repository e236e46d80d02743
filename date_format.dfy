/**
  The "Updated:" label of a rendered note: the calendar fields of the note's
  timestamp joined as D/M/YYYY H:M:S, each number printed in plain decimal
  with no zero padding and the 0-based month shifted by one.

  The decomposition of a millisecond timestamp into local calendar fields
  (`new Date(ms)` and its getters) is the host's; it is a parameter here.
  ParseDate reads a label back, and the round-trip lemma shows that the
  label loses none of the fields it prints.
*/
module DateFormat {
  import opened Wrappers

  /** What getDate(), getMonth() (0-based), getFullYear(), getHours(),
      getMinutes() and getSeconds() return for one timestamp. */
  datatype DateTime = DateTime(day: nat, month: nat, year: int, hours: nat, minutes: nat, seconds: nat)

  predicate IsDigit(c: char) {
    '0' <= c <= '9'
  }

  predicate AllDigits(s: string) {
    forall i :: 0 <= i < |s| ==> IsDigit(s[i])
  }

  function DigitChar(d: nat): (c: char)
    requires d < 10
    ensures IsDigit(c)
  {
    ('0' as int + d) as char
  }

  function DigitValue(c: char): (d: nat)
    requires IsDigit(c)
    ensures d < 10
  {
    c as int - '0' as int
  }

  /** JavaScript's string conversion of a non-negative integer: its decimal
      digits, most significant first, with no leading zero. */
  function NatToString(n: nat): (s: string)
    ensures |s| >= 1 && AllDigits(s)
    ensures |s| == 1 <==> n < 10
    ensures |s| > 1 ==> s[0] != '0'
    decreases n
  {
    if n < 10 then [DigitChar(n)] else NatToString(n / 10) + [DigitChar(n % 10)]
  }

  /** The same conversion for an integer that may be negative (a year). */
  function IntToString(i: int): (s: string)
    ensures |s| >= 1
    ensures s[0] == '-' <==> i < 0
  {
    if i < 0 then "-" + NatToString(-i) else NatToString(i)
  }

  /** The date expression of the note template. */
  function FormatDate(d: DateTime): string
  {
    NatToString(d.day) + "/"
      + NatToString(d.month + 1) + "/"
      + IntToString(d.year) + " "
      + NatToString(d.hours) + ":"
      + NatToString(d.minutes) + ":"
      + NatToString(d.seconds)
  }

  /** The separators of the label, in order. */
  const Separators := "// ::"

  /** The numerals of the label, in order. */
  function Numerals(d: DateTime): (fs: seq<string>)
    ensures |fs| == |Separators| + 1
  {
    [NatToString(d.day), NatToString(d.month + 1), IntToString(d.year),
     NatToString(d.hours), NatToString(d.minutes), NatToString(d.seconds)]
  }

  /** fields[0] seps[0] fields[1] ... seps[n-1] fields[n], built left to
      right as the template's `+` chain builds it. */
  function JoinAll(fields: seq<string>, seps: string): string
    requires |fields| == |seps| + 1
    decreases seps
  {
    if seps == [] then fields[0]
    else JoinAll(fields[..|seps|], seps[..|seps| - 1]) + [seps[|seps| - 1]] + fields[|seps|]
  }

  // ---------------------------------------------------------------------
  // Reading a label back

  /** Decimal digits to their value; None unless the string is a non-empty
      run of digits. */
  function ParseNat(s: string): (r: Option<nat>)
    ensures r.Some? <==> |s| >= 1 && AllDigits(s)
    decreases |s|
  {
    if |s| == 0 || !IsDigit(s[|s| - 1]) then None
    else if |s| == 1 then Some(DigitValue(s[0]))
    else match ParseNat(s[..|s| - 1])
      case None => None
      case Some(v) => Some(10 * v + DigitValue(s[|s| - 1]))
  }

  function ParseInt(s: string): Option<int>
  {
    if |s| > 0 && s[0] == '-' then
      match ParseNat(s[1..])
      case None => None
      case Some(v) => Some(0 - v)
    else
      match ParseNat(s)
      case None => None
      case Some(v) => Some(v)
  }

  /** Splits at the last occurrence of `sep`: the part before and the part
      after; None when `sep` does not occur. */
  function SplitLast(s: string, sep: char): (r: Option<(string, string)>)
    ensures r.Some? ==> s == r.value.0 + [sep] + r.value.1 && sep !in r.value.1
    ensures r.None? <==> sep !in s
  {
    if |s| == 0 then None
    else if s[|s| - 1] == sep then Some((s[..|s| - 1], []))
    else match SplitLast(s[..|s| - 1], sep)
      case None => None
      case Some(p) => Some((p.0, p.1 + [s[|s| - 1]]))
  }

  /** Cuts at the last occurrence of each separator, working from the end;
      the inverse of JoinAll. */
  function SplitAll(s: string, seps: string): (r: Option<seq<string>>)
    ensures r.Some? ==> |r.value| == |seps| + 1
    decreases seps
  {
    if seps == [] then Some([s])
    else match SplitLast(s, seps[|seps| - 1])
      case None => None
      case Some(p) =>
        match SplitAll(p.0, seps[..|seps| - 1])
        case None => None
        case Some(init) => Some(init + [p.1])
  }

  function ParseFields(f: seq<string>): Option<DateTime>
    requires |f| == 6
  {
    var day :- ParseNat(f[0]);
    var month :- ParseNat(f[1]);
    var year :- ParseInt(f[2]);
    var hours :- ParseNat(f[3]);
    var minutes :- ParseNat(f[4]);
    var seconds :- ParseNat(f[5]);
    if month == 0 then None else Some(DateTime(day, month - 1, year, hours, minutes, seconds))
  }

  function ParseDate(s: string): Option<DateTime>
  {
    var f :- SplitAll(s, Separators);
    ParseFields(f)
  }

  // ---------------------------------------------------------------------
  // Properties

  lemma {:induction false} ParseNatToString(n: nat)
    ensures ParseNat(NatToString(n)) == Some(n)
    decreases n
  {
    if n >= 10 {
      var s := NatToString(n);
      assert s[..|s| - 1] == NatToString(n / 10);
      ParseNatToString(n / 10);
    }
  }

  lemma ParseIntToString(i: int)
    ensures ParseInt(IntToString(i)) == Some(i)
  {
    var s := IntToString(i);
    if i < 0 {
      assert s[0] == '-' && s[1..] == NatToString(-i);
      assert ParseNat(s[1..]) == Some(-i) by { ParseNatToString(-i); }
    } else {
      assert s == NatToString(i) && s[0] != '-';
      assert ParseNat(s) == Some(i) by { ParseNatToString(i); }
    }
  }

  lemma {:induction false} SplitLastConcat(a: string, sep: char, b: string)
    requires sep !in b
    ensures SplitLast(a + [sep] + b, sep) == Some((a, b))
    decreases |b|
  {
    var s := a + [sep] + b;
    if b != [] {
      var b' := b[..|b| - 1];
      assert s[|s| - 1] == b[|b| - 1] != sep;
      assert s[..|s| - 1] == a + [sep] + b';
      SplitLastConcat(a, sep, b');
      assert b' + [b[|b| - 1]] == b;
    } else {
      assert s[..|s| - 1] == a;
    }
  }

  lemma NoSeparatorInNumber(n: nat)
    ensures '/' !in NatToString(n) && ':' !in NatToString(n) && ' ' !in NatToString(n)
  {
  }

  lemma NoSlashInYear(i: int)
    ensures '/' !in IntToString(i)
  {
    if i < 0 {
      NoSeparatorInNumber(-i);
      assert IntToString(i) == ['-'] + NatToString(-i);
    }
  }

  lemma ParseSix(f: seq<string>, d: DateTime)
    requires |f| == 6
    requires ParseNat(f[0]) == Some(d.day) && ParseNat(f[1]) == Some(d.month + 1)
    requires ParseInt(f[2]) == Some(d.year) && ParseNat(f[3]) == Some(d.hours)
    requires ParseNat(f[4]) == Some(d.minutes) && ParseNat(f[5]) == Some(d.seconds)
    ensures ParseFields(f) == Some(d)
  {
  }

  lemma ParseFieldsOf(d: DateTime)
    ensures ParseFields(Numerals(d)) == Some(d)
  {
    var f := Numerals(d);
    assert ParseNat(f[0]) == Some(d.day) by { ParseNatToString(d.day); }
    assert ParseNat(f[1]) == Some(d.month + 1) by { ParseNatToString(d.month + 1); }
    assert ParseInt(f[2]) == Some(d.year) by { ParseIntToString(d.year); }
    assert ParseNat(f[3]) == Some(d.hours) by { ParseNatToString(d.hours); }
    assert ParseNat(f[4]) == Some(d.minutes) by { ParseNatToString(d.minutes); }
    assert ParseNat(f[5]) == Some(d.seconds) by { ParseNatToString(d.seconds); }
    ParseSix(f, d);
  }

  lemma {:induction false} SplitAllJoinAll(fields: seq<string>, seps: string)
    requires |fields| == |seps| + 1
    requires forall i :: 0 <= i < |seps| ==> seps[i] !in fields[i + 1]
    ensures SplitAll(JoinAll(fields, seps), seps) == Some(fields)
    decreases seps
  {
    if seps != [] {
      var n := |seps|;
      var init, lastSep := fields[..n], seps[..n - 1];
      SplitLastConcat(JoinAll(init, lastSep), seps[n - 1], fields[n]);
      assert forall i :: 0 <= i < |lastSep| ==> lastSep[i] !in init[i + 1] by {
        forall i | 0 <= i < |lastSep| ensures lastSep[i] !in init[i + 1] {
          assert lastSep[i] == seps[i] && init[i + 1] == fields[i + 1];
        }
      }
      SplitAllJoinAll(init, lastSep);
      assert init + [fields[n]] == fields;
    } else {
      assert [fields[0]] == fields;
    }
  }

  /** The template's `+` chain is the numerals joined by the separators. */
  lemma JoinSix(f: seq<string>)
    requires |f| == 6
    ensures f[0] + "/" + f[1] + "/" + f[2] + " " + f[3] + ":" + f[4] + ":" + f[5] == JoinAll(f, Separators)
  {
    var S := Separators;
    assert JoinAll(f[..1], S[..0]) == f[0];
    assert JoinAll(f[..2], S[..1]) == f[0] + "/" + f[1] by {
      assert f[..2][..1] == f[..1] && S[..1][..0] == S[..0];
    }
    assert JoinAll(f[..3], S[..2]) == f[0] + "/" + f[1] + "/" + f[2] by {
      assert f[..3][..2] == f[..2] && S[..2][..1] == S[..1];
    }
    assert JoinAll(f[..4], S[..3]) == f[0] + "/" + f[1] + "/" + f[2] + " " + f[3] by {
      assert f[..4][..3] == f[..3] && S[..3][..2] == S[..2];
    }
    assert JoinAll(f[..5], S[..4]) == f[0] + "/" + f[1] + "/" + f[2] + " " + f[3] + ":" + f[4] by {
      assert f[..5][..4] == f[..4] && S[..4][..3] == S[..3];
    }
    assert f[..5] == f[..|S|] && S[..4] == S[..|S| - 1];
  }

  /** The date expression is the numerals joined by the separators. */
  lemma FormatDateJoins(d: DateTime)
    ensures FormatDate(d) == JoinAll(Numerals(d), Separators)
  {
    JoinSix(Numerals(d));
  }

  lemma NumeralsAvoidSeparators(d: DateTime)
    ensures forall i :: 0 <= i < |Separators| ==> Separators[i] !in Numerals(d)[i + 1]
  {
    NoSeparatorInNumber(d.month + 1);
    NoSeparatorInNumber(d.hours);
    NoSeparatorInNumber(d.minutes);
    NoSeparatorInNumber(d.seconds);
    NoSlashInYear(d.year);
    var f := Numerals(d);
    assert Separators[1] !in f[2] && Separators[0] !in f[1];
  }

  /** Every field the label prints can be read back from it. */
  lemma ParseFormatDate(d: DateTime)
    ensures ParseDate(FormatDate(d)) == Some(d)
  {
    FormatDateJoins(d);
    NumeralsAvoidSeparators(d);
    SplitAllJoinAll(Numerals(d), Separators);
    ParseFieldsOf(d);
  }

  /** Two different sets of calendar fields never print as the same label. */
  lemma FormatDateInjective(a: DateTime, b: DateTime)
    ensures FormatDate(a) == FormatDate(b) ==> a == b
  {
    ParseFormatDate(a);
    ParseFormatDate(b);
  }

  /** No padding: single-digit fields print as one character. */
  lemma FormatDateExample()
    ensures FormatDate(DateTime(5, 0, 2024, 9, 3, 7)) == "5/1/2024 9:3:7"
  {
    assert IntToString(2024) == "2024" by { Year2024(); }
    assert NatToString(5) == "5" && NatToString(1) == "1";
    assert NatToString(9) == "9" && NatToString(3) == "3" && NatToString(7) == "7";
    assert "5" + "/" + "1" + "/" + "2024" + " " + "9" + ":" + "3" + ":" + "7" == "5/1/2024 9:3:7";
  }

  lemma Year2024()
    ensures IntToString(2024) == "2024"
  {
    assert NatToString(2) == "2";
    assert NatToString(20) == NatToString(2) + "0";
    assert NatToString(202) == NatToString(20) + "2";
    assert NatToString(2024) == NatToString(202) + "4";
  }
}
