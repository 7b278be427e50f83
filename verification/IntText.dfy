/**
 Integers as text: what one call of the stream reader takes from the bytes ahead of it, decimal
 notation, and why reading back what was printed gives the same number.
 */
module IntText {
  type Byte = b: int | 0 <= b < 256

  const MINUS: Byte := 45
  const NEWLINE: Byte := 10
  const RETURN: Byte := 13
  const I64_MAX := 9223372036854775807

  predicate IsDigit(b: int) {
    48 <= b <= 57
  }

  function Pow10(n: nat): nat {
    if n == 0 then 1 else 10 * Pow10(n - 1)
  }

  function DigitOf(b: int): int {
    b - 48
  }

  predicate IsSpace(b: int) {
    b == 32 || b == 9 || b == 10 || b == 13 || b == 11 || b == 12
  }

  // ---------------------------------------------------------------- reading

  /** What a read reports: a number, that the stream ended first, or a number too long for the type. */
  datatype Reading = Number(value: int) | Nothing | TooLong(prefix: int)

  datatype Read = Read(what: Reading, rest: seq<Byte>)

  function Signed(neg: bool, v: int): int {
    if neg then -v else v
  }

  /** The byte that ends a number is taken as well, and so is the newline of a carriage return. */
  function AfterNumber(s: seq<Byte>): seq<Byte> {
    if s == [] then []
    else if s[0] == RETURN && |s| > 1 && s[1] == NEWLINE then s[2..]
    else s[1..]
  }

  /** The digits of a number, `v` being what the ones before came to. */
  function InNumber(neg: bool, v: int, s: seq<Byte>): Read
    decreases |s|
  {
    if s == [] || !IsDigit(s[0]) then Read(Number(Signed(neg, v)), AfterNumber(s))
    else if 10 * v + DigitOf(s[0]) <= I64_MAX then InNumber(neg, 10 * v + DigitOf(s[0]), s[1..])
    else Read(TooLong(v), s[1..])
  }

  /** Once the sign has been decided everything up to the first digit is skipped. */
  function AfterSign(neg: bool, s: seq<Byte>): Read {
    if s == [] then Read(Nothing, [])
    else if IsDigit(s[0]) then InNumber(neg, 0, s)
    else AfterSign(neg, s[1..])
  }

  /** One call of the reader on the bytes `s`. */
  function Next(s: seq<Byte>): Read {
    if s == [] then Read(Nothing, [])
    else if IsSpace(s[0]) then Next(s[1..])
    else if s[0] == MINUS then AfterSign(true, s[1..])
    else AfterSign(false, s)
  }

  // ---------------------------------------------------------------- the value of a run of digits

  predicate AllDigits(ds: seq<Byte>) {
    forall i | 0 <= i < |ds| :: IsDigit(ds[i])
  }

  predicate NoDigits(ds: seq<Byte>) {
    forall i | 0 <= i < |ds| :: !IsDigit(ds[i])
  }

  function Value(v: int, ds: seq<Byte>): int {
    if ds == [] then v else 10 * Value(v, ds[..|ds| - 1]) + DigitOf(ds[|ds| - 1])
  }

  lemma {:induction false} ValueFirst(v: int, ds: seq<Byte>)
    requires ds != []
    ensures Value(v, ds) == Value(10 * v + DigitOf(ds[0]), ds[1..])
  {
    if |ds| == 1 {
      assert ds[..0] == [] && ds[1..] == [];
    } else {
      var front := ds[..|ds| - 1];
      ValueFirst(v, front);
      assert front[1..] == ds[1..][..|ds[1..]| - 1];
    }
  }

  lemma {:induction false} ValueGrows(v: int, ds: seq<Byte>)
    requires v >= 0 && AllDigits(ds)
    ensures Value(v, ds) >= v
  {
    if ds != [] {
      ValueGrows(v, ds[..|ds| - 1]);
    }
  }

  ghost predicate EndsNumber(rest: seq<Byte>) {
    rest == [] || !IsDigit(rest[0])
  }

  /** A run of digits reads as its decimal value exactly when that value fits; otherwise the read fails. */
  lemma {:induction false} NumberIff(neg: bool, v: int, ds: seq<Byte>, rest: seq<Byte>)
    requires 0 <= v <= I64_MAX && AllDigits(ds) && EndsNumber(rest)
    ensures Value(v, ds) <= I64_MAX ==>
              InNumber(neg, v, ds + rest) == Read(Number(Signed(neg, Value(v, ds))), AfterNumber(rest))
    ensures Value(v, ds) > I64_MAX ==> InNumber(neg, v, ds + rest).what.TooLong?
    decreases |ds|
  {
    if ds == [] {
      assert ds + rest == rest;
    } else {
      ValueFirst(v, ds);
      assert (ds + rest)[0] == ds[0] && (ds + rest)[1..] == ds[1..] + rest;
      var w := 10 * v + DigitOf(ds[0]);
      ValueGrows(w, ds[1..]);
      if w <= I64_MAX {
        NumberIff(neg, w, ds[1..], rest);
      }
    }
  }

  lemma {:induction false} SkipNoDigits(neg: bool, junk: seq<Byte>, s: seq<Byte>)
    requires NoDigits(junk)
    ensures AfterSign(neg, junk + s) == AfterSign(neg, s)
    decreases |junk|
  {
    if junk == [] {
      assert junk + s == s;
    } else {
      assert (junk + s)[0] == junk[0] && (junk + s)[1..] == junk[1..] + s;
      SkipNoDigits(neg, junk[1..], s);
    }
  }

  lemma {:induction false} SkipSpaces(spaces: seq<Byte>, s: seq<Byte>)
    requires forall i | 0 <= i < |spaces| :: IsSpace(spaces[i])
    ensures Next(spaces + s) == Next(s)
    decreases |spaces|
  {
    if spaces == [] {
      assert spaces + s == s;
    } else {
      assert (spaces + s)[0] == spaces[0] && (spaces + s)[1..] == spaces[1..] + s;
      SkipSpaces(spaces[1..], s);
    }
  }

  /** The text ahead of a number: spaces, perhaps a minus sign, anything that is not a digit. */
  ghost predicate Lead(spaces: seq<Byte>, neg: bool, junk: seq<Byte>) {
    && (forall i | 0 <= i < |spaces| :: IsSpace(spaces[i])) && NoDigits(junk)
    && (!neg ==> junk == [] || (!IsSpace(junk[0]) && junk[0] != MINUS))
  }

  function Sign(neg: bool): seq<Byte> {
    if neg then [MINUS] else []
  }

  /**
   What a read means: spaces are skipped, a minus sign counts only as the first thing after them,
   whatever else comes before the digits is dropped, and the digits are a number exactly if it fits.
   */
  lemma {:induction false} NextMeans(spaces: seq<Byte>, neg: bool, junk: seq<Byte>, ds: seq<Byte>, rest: seq<Byte>)
    requires Lead(spaces, neg, junk) && ds != [] && AllDigits(ds) && EndsNumber(rest)
    ensures var s := spaces + (Sign(neg) + (junk + (ds + rest)));
            if Value(0, ds) <= I64_MAX then Next(s) == Read(Number(Signed(neg, Value(0, ds))), AfterNumber(rest))
            else Next(s).what.TooLong?
  {
    var tail := junk + (ds + rest);
    SkipSpaces(spaces, Sign(neg) + tail);
    SkipNoDigits(neg, junk, ds + rest);
    NumberIff(neg, 0, ds, rest);
    assert (ds + rest)[0] == ds[0];
    if neg {
      assert (Sign(neg) + tail)[0] == MINUS && (Sign(neg) + tail)[1..] == tail;
    } else {
      assert Sign(neg) + tail == tail && tail[0] == if junk == [] then ds[0] else junk[0];
    }
  }

  /** A read finds no number exactly when there are no digits ahead. */
  lemma {:induction false} NothingIff(s: seq<Byte>)
    ensures Next(s).what.Nothing? <==> NoDigits(s)
    ensures Next(s).what.Nothing? ==> Next(s).rest == []
  {
    if s == [] {
    } else if IsSpace(s[0]) {
      NothingIff(s[1..]);
      assert NoDigits(s) <==> NoDigits(s[1..]) by { assert forall i | 0 < i < |s| :: s[i] == s[1..][i - 1]; }
    } else if s[0] == MINUS {
      NothingAfterSign(true, s[1..]);
      assert NoDigits(s) <==> NoDigits(s[1..]) by { assert forall i | 0 < i < |s| :: s[i] == s[1..][i - 1]; }
    } else {
      NothingAfterSign(false, s);
    }
  }

  lemma {:induction false} NothingAfterSign(neg: bool, s: seq<Byte>)
    ensures AfterSign(neg, s).what.Nothing? <==> NoDigits(s)
    ensures AfterSign(neg, s).what.Nothing? ==> AfterSign(neg, s).rest == []
  {
    if s == [] {
    } else if IsDigit(s[0]) {
      SomethingInNumber(neg, 0, s);
    } else {
      NothingAfterSign(neg, s[1..]);
      assert NoDigits(s) <==> NoDigits(s[1..]) by { assert forall i | 0 < i < |s| :: s[i] == s[1..][i - 1]; }
    }
  }

  lemma {:induction false} SomethingInNumber(neg: bool, v: int, s: seq<Byte>)
    ensures !InNumber(neg, v, s).what.Nothing?
    decreases |s|
  {
    if s != [] && IsDigit(s[0]) && 10 * v + DigitOf(s[0]) <= I64_MAX {
      SomethingInNumber(neg, 10 * v + DigitOf(s[0]), s[1..]);
    }
  }

  // ---------------------------------------------------------------- successive reads

  /** `k` reads in a row. */
  function Readings(s: seq<Byte>, k: nat): seq<Reading>
    decreases k
  {
    if k == 0 then [] else [Next(s).what] + Readings(Next(s).rest, k - 1)
  }

  /**
   The bytes a read leaves: exactly the rest, or the newline of a carriage return that had not
   arrived yet comes before it.
   */
  ghost predicate Leaves(left: seq<Byte>, rest: seq<Byte>) {
    left == rest || left == [NEWLINE] + rest
  }

  lemma {:induction false} NewlineIsSkipped(s: seq<Byte>)
    ensures Next([NEWLINE] + s) == Next(s)
  {
    assert ([NEWLINE] + s)[1..] == s;
  }

  lemma {:induction false} LeadingNewline(s: seq<Byte>, k: nat)
    ensures Readings([NEWLINE] + s, k) == Readings(s, k)
  {
    NewlineIsSkipped(s);
  }

  /** The reads after the first see what the bytes alone determine, whichever of the two was left. */
  lemma {:induction false} ReadingsGoOn(s: seq<Byte>, left: seq<Byte>, k: nat)
    requires Leaves(left, Next(s).rest)
    ensures Readings(s, k + 1) == [Next(s).what] + Readings(left, k)
  {
    LeadingNewline(Next(s).rest, k);
  }

  // ---------------------------------------------------------------- printing

  function Digits(n: nat): (ds: seq<Byte>)
    ensures ds != [] && AllDigits(ds)
  {
    if n < 10 then [48 + n] else Digits(n / 10) + [48 + n % 10]
  }

  /** Decimal notation. */
  function Decimal(v: int): seq<Byte> {
    if v < 0 then [MINUS] + Digits(-v) else Digits(v)
  }

  lemma {:induction false} ValueOfDigits(n: nat)
    ensures Value(0, Digits(n)) == n
  {
    if n < 10 {
      assert Digits(n)[..0] == [];
    } else {
      ValueOfDigits(n / 10);
      assert Digits(n)[..|Digits(n)| - 1] == Digits(n / 10);
    }
  }

  /**
   Round trip: what was printed for `v`, followed by anything but a digit, reads back as `v` exactly
   when `v` is not the type's minimum or beyond its range; otherwise the read fails.
   */
  lemma {:induction false} PrintedReadsBack(v: int, rest: seq<Byte>)
    requires EndsNumber(rest)
    ensures -I64_MAX <= v <= I64_MAX ==> Next(Decimal(v) + rest) == Read(Number(v), AfterNumber(rest))
    ensures !(-I64_MAX <= v <= I64_MAX) ==> Next(Decimal(v) + rest).what.TooLong?
  {
    var neg, n := v < 0, if v < 0 then -v else v;
    ValueOfDigits(n);
    NextMeans([], neg, [], Digits(n), rest);
    PrintedAs(Digits(n), neg, rest);
  }

  lemma {:induction false} PrintedAs(ds: seq<Byte>, neg: bool, rest: seq<Byte>)
    ensures [] + (Sign(neg) + ([] + (ds + rest))) == (if neg then [MINUS] + ds else ds) + rest
  {
    assert [] + (ds + rest) == ds + rest;
    assert [] + (Sign(neg) + (ds + rest)) == Sign(neg) + (ds + rest) == (Sign(neg) + ds) + rest;
    assert !neg ==> Sign(neg) + ds == ds;
  }

  /** Numbers printed one after the other, each followed by `sep`. */
  function Printed(vs: seq<int>, sep: Byte): seq<Byte> {
    if vs == [] then [] else Decimal(vs[0]) + ([sep] + Printed(vs[1..], sep))
  }

  /** A list of numbers printed with any separator but a digit is read back number by number. */
  lemma {:induction false} ListReadsBack(vs: seq<int>, sep: Byte)
    requires !IsDigit(sep) && forall i | 0 <= i < |vs| :: -I64_MAX <= vs[i] <= I64_MAX
    ensures |Readings(Printed(vs, sep), |vs|)| == |vs|
    ensures forall i | 0 <= i < |vs| :: Readings(Printed(vs, sep), |vs|)[i] == Number(vs[i])
    decreases |vs|
  {
    if vs != [] {
      var tail := Printed(vs[1..], sep);
      PrintedReadsBack(vs[0], [sep] + tail);
      if vs[1..] != [] {
        assert tail[0] == Decimal(vs[1])[0] && tail[0] != NEWLINE;
      }
      assert ([sep] + tail)[1..] == tail && AfterNumber([sep] + tail) == tail;
      ListReadsBack(vs[1..], sep);
    }
  }
}
