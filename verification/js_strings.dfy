/**
 * The few JavaScript string primitives the codec rests on: `split` with a
 * one-character separator, `Number(text)`, `String(n)` for an integer and
 * `padStart(2, '0')`.
 */
module JsStrings {
  import opened Wrappers

  predicate IsDigit(c: char)
  {
    '0' <= c <= '9'
  }

  predicate AllDigits(s: string)
  {
    forall i :: 0 <= i < |s| ==> IsDigit(s[i])
  }

  /** Characters `String(n)` can produce for an integer `n`. */
  predicate NumeralChars(s: string)
  {
    forall i :: 0 <= i < |s| ==> IsDigit(s[i]) || s[i] == '-'
  }

  /** The pieces joined with `sep`: the inverse of `Split`. */
  function Join(parts: seq<string>, sep: char): string
    requires |parts| >= 1
    decreases |parts|
  {
    if |parts| == 1 then parts[0] else parts[0] + [sep] + Join(parts[1..], sep)
  }

  /**
   * `s.split(sep)` for a one-character separator: the maximal pieces between
   * separators, always at least one (the empty text splits into `[""]`).
   */
  function Split(s: string, sep: char): (r: seq<string>)
    ensures |r| >= 1
    ensures Join(r, sep) == s
    ensures forall i :: 0 <= i < |r| ==> sep !in r[i]
    ensures |s| > 0 && s[0] != sep ==> |r[0]| > 0 && r[0][0] == s[0]
    ensures |s| > 0 && s[0] == sep ==> r[0] == ""
    decreases |s|
  {
    if |s| == 0 then [""]
    else if s[0] == sep then [""] + Split(s[1..], sep)
    else
      var rest := Split(s[1..], sep);
      [[s[0]] + rest[0]] + rest[1..]
  }

  /** Splitting a join of separator-free pieces gives the pieces back. */
  lemma {:induction false} SplitJoin(parts: seq<string>, sep: char)
    requires |parts| >= 1
    requires forall i :: 0 <= i < |parts| ==> sep !in parts[i]
    ensures Split(Join(parts, sep), sep) == parts
    decreases |parts|
  {
    if |parts| == 1 {
      SplitPiece(parts[0], [], sep);
    } else {
      SplitJoin(parts[1..], sep);
      SplitPiece(parts[0], [sep] + Join(parts[1..], sep), sep);
      assert parts[0] + [sep] + Join(parts[1..], sep) == parts[0] + ([sep] + Join(parts[1..], sep));
    }
  }

  lemma JoinThree(a: string, b: string, c: string, sep: char)
    ensures Join([a, b, c], sep) == a + [sep] + b + [sep] + c
  {
    assert [a, b, c][1..] == [b, c];
    assert [b, c][1..] == [c];
    assert Join([b, c], sep) == b + [sep] + c;
    assert a + [sep] + (b + [sep] + c) == a + [sep] + b + [sep] + c;
  }

  /** A separator-free prefix becomes the first piece of the split. */
  lemma {:induction false} SplitPiece(a: string, b: string, sep: char)
    requires sep !in a
    ensures |b| == 0 ==> Split(a + b, sep) == [a]
    ensures |b| > 0 && b[0] == sep ==> Split(a + b, sep) == [a] + Split(b[1..], sep)
    decreases |a|
  {
    if |a| == 0 {
      assert a + b == b;
    } else {
      SplitPiece(a[1..], b, sep);
      assert (a + b)[1..] == a[1..] + b;
      assert [a[0]] + a[1..] == a;
    }
  }

  /** Value of a string of decimal digits, most significant first. */
  function DigitsValue(s: string): nat
    requires AllDigits(s)
    decreases |s|
  {
    if |s| == 0 then 0
    else DigitsValue(s[..|s| - 1]) * 10 + (s[|s| - 1] as int - '0' as int)
  }

  /**
   * `Number(text)` for the texts the widget meets: the empty text is 0, an
   * optional sign followed by decimal digits is that integer, anything else is
   * NaN (`None`).
   */
  function NumberOf(s: string): (r: Option<int>)
    ensures s == "" ==> r == Some(0)
    ensures AllDigits(s) ==> r.Some? && r.value >= 0
    ensures |s| > 0 && !IsDigit(s[0]) && s[0] != '-' && s[0] != '+' ==> r.None?
  {
    if s == "" then Some(0)
    else if |s| > 1 && s[0] == '-' && AllDigits(s[1..]) then Some(-(DigitsValue(s[1..]) as int))
    else if |s| > 1 && s[0] == '+' && AllDigits(s[1..]) then Some(DigitsValue(s[1..]))
    else if AllDigits(s) then Some(DigitsValue(s))
    else None
  }

  /** JavaScript truthiness of a number: NaN, 0 and `undefined` are falsy. */
  predicate Truthy(n: Option<int>)
  {
    n.Some? && n.value != 0
  }

  /** `x || 0` on a number. */
  function OrZero(n: Option<int>): int
  {
    if Truthy(n) then n.value else 0
  }

  /** `Number(parts[i])`, where a missing element is `undefined`. */
  function NumberAt(parts: seq<string>, i: nat): Option<int>
  {
    if i < |parts| then NumberOf(parts[i]) else None
  }

  /** Decimal digits of a natural number, with no leading zero. */
  function NatToString(n: nat): (r: string)
    ensures |r| >= 1 && AllDigits(r)
    decreases n
  {
    var c := ('0' as int + n % 10) as char;
    if n < 10 then [c] else NatToString(n / 10) + [c]
  }

  /** `String(n)` for an integer `n`. */
  function IntToString(n: int): (r: string)
    ensures |r| >= 1 && NumeralChars(r)
    ensures n >= 0 <==> IsDigit(r[0])
  {
    if n < 0 then "-" + NatToString(-n) else NatToString(n)
  }

  /** `String(n).padStart(2, '0')`. */
  function Pad(n: int): (r: string)
    ensures |r| >= 2 && NumeralChars(r)
    ensures 0 <= n <= 9 ==> r[0] == '0'
  {
    var t := IntToString(n);
    if |t| < 2 then "0" + t else t
  }

  /** Numbers 0..99 pad to exactly two digits. */
  lemma PadTwoDigits(n: int)
    requires 0 <= n <= 99
    ensures |Pad(n)| == 2 && AllDigits(Pad(n))
  {
    if n >= 10 {
      assert |NatToString(n / 10)| == 1;
    }
  }

  lemma {:induction false} DigitsRoundTrip(n: nat)
    ensures DigitsValue(NatToString(n)) == n
    decreases n
  {
    var c := ('0' as int + n % 10) as char;
    if n >= 10 {
      DigitsRoundTrip(n / 10);
      var s := NatToString(n);
      assert s[..|s| - 1] == NatToString(n / 10);
    }
  }

  /** `Number(String(n))` gives `n` back. */
  lemma NumberOfIntToString(n: int)
    ensures NumberOf(IntToString(n)) == Some(n)
  {
    var t := IntToString(n);
    if n < 0 {
      DigitsRoundTrip(-n);
      assert t[0] == '-' && t[1..] == NatToString(-n);
      assert |t| > 1 && AllDigits(t[1..]);
    } else {
      DigitsRoundTrip(n);
      assert t == NatToString(n);
      assert AllDigits(t) && t[0] != '-' && t[0] != '+';
    }
  }

  /** Zero padding does not change the number that `Number` reads back. */
  lemma NumberOfPad(n: int)
    ensures NumberOf(Pad(n)) == Some(n)
  {
    var t := IntToString(n);
    NumberOfIntToString(n);
    if |t| < 2 {
      assert t == NatToString(n);
      var p := "0" + t;
      assert AllDigits(p);
      assert p[..1] == "0";
      assert DigitsValue(p) == DigitsValue(t);
    }
  }

  /** Numerals never contain the codec's separators. */
  lemma NumeralsHaveNoSeparators(s: string)
    requires NumeralChars(s)
    ensures '/' !in s && ' ' !in s && ':' !in s
  {
  }
}
