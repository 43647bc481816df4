/**
 * Field values as an entity's attributes hold them, and their default
 * textual rendering (Python's `str`), which the change tracker writes into
 * history descriptions.
 */
module Values {

  /** A column value: SQL NULL (Python `None`), text, an integer (a foreign
      key is watched through its raw `_id` column, so as an integer) or a
      boolean. */
  datatype Value = Null | Str(s: string) | Int(i: int) | Bool(b: bool)

  predicate IsDigit(c: char) {
    '0' <= c <= '9'
  }

  predicate AllDigits(s: string) {
    forall i :: 0 <= i < |s| ==> IsDigit(s[i])
  }

  function DigitChar(d: nat): (c: char)
    requires d < 10
    ensures IsDigit(c) && c as int - '0' as int == d
  {
    ('0' as int + d) as char
  }

  /** Decimal digits of `n`, most significant first, without leading zeros. */
  function NatToString(n: nat): (s: string)
    ensures |s| > 0 && AllDigits(s)
    ensures n >= 10 ==> s[0] != '0'
  {
    if n < 10 then [DigitChar(n)] else NatToString(n / 10) + [DigitChar(n % 10)]
  }

  /** Reads a string of decimal digits back as a number. */
  function ParseNat(s: string): (n: nat)
    requires AllDigits(s)
  {
    if s == [] then 0 else ParseNat(s[..|s| - 1]) * 10 + (s[|s| - 1] as int - '0' as int)
  }

  lemma {:induction false} ParseNatToString(n: nat)
    ensures ParseNat(NatToString(n)) == n
  {
    var s := NatToString(n);
    if n >= 10 {
      assert s[..|s| - 1] == NatToString(n / 10);
      ParseNatToString(n / 10);
    } else {
      assert s[..|s| - 1] == [];
    }
  }

  /** `str(i)` of a Python int: an optional minus sign, then the digits. */
  function IntToString(i: int): (s: string)
    ensures |s| > 0
    ensures s[0] == '-' <==> i < 0
  {
    if i < 0 then "-" + NatToString(-i) else NatToString(i)
  }

  /** The inverse of IntToString on the strings it produces. */
  function ParseInt(s: string): (i: int)
    requires |s| > 0
    requires if s[0] == '-' then AllDigits(s[1..]) else AllDigits(s)
  {
    if s[0] == '-' then 0 - ParseNat(s[1..]) as int else ParseNat(s)
  }

  lemma IntToStringRoundTrip(i: int)
    ensures var s := IntToString(i);
      |s| > 0 && (if s[0] == '-' then AllDigits(s[1..]) else AllDigits(s)) && ParseInt(s) == i
  {
    var s := IntToString(i);
    if i < 0 {
      assert s[1..] == NatToString(-i);
      ParseNatToString(-i);
    } else {
      ParseNatToString(i);
    }
  }

  /** Distinct integers (in particular distinct foreign-key ids) render
      differently. */
  lemma IntToStringInjective(i: int, j: int)
    requires IntToString(i) == IntToString(j)
    ensures i == j
  {
    IntToStringRoundTrip(i);
    IntToStringRoundTrip(j);
  }

  /** Python's `str` of a value: `None` renders as the literal "None", a
      string as itself, an integer in decimal with a sign only when
      negative, and a boolean as "True" or "False". */
  function Render(v: Value): (s: string)
    ensures v.Null? ==> s == "None"
    ensures v.Str? ==> s == v.s
    ensures v.Int? ==> |s| > 0 && (s[0] == '-' <==> v.i < 0)
    ensures v.Bool? ==> s == (if v.b then "True" else "False")
  {
    match v
    case Null => "None"
    case Str(s) => s
    case Int(i) => IntToString(i)
    case Bool(b) => if b then "True" else "False"
  }

  /** A foreign key watched as its raw id renders as that id's decimal
      digits, and a missing one as "None"; two ids render alike only when
      they are equal. */
  lemma RenderForeignKey(i: int, j: int)
    ensures Render(Null) == "None"
    ensures Render(Int(i)) == Render(Int(j)) <==> i == j
  {
    if Render(Int(i)) == Render(Int(j)) {
      IntToStringInjective(i, j);
    }
  }
}
