/**
 The two integer printers of the emitted runtime: the one behind `<<`, which writes two digits at a
 time backwards into a 24-byte buffer, and the recursive one that appends to a growing string.
 */
module IntWriter {
  import opened IntText

  /** `io$DIGITS`: the two-digit numbers from 00 to 99. */
  const DIGITS: string :=
    "00010203040506070809" + "10111213141516171819" + "20212223242526272829" + "30313233343536373839" +
    "40414243444546474849" + "50515253545556575859" + "60616263646566676869" + "70717273747576777879" +
    "80818283848586878889" + "90919293949596979899"

  ghost predicate Row(s: string, tens: char) {
    |s| == 20 && forall j | 0 <= j < 10 :: s[2 * j] == tens && s[2 * j + 1] as int == 48 + j
  }

  lemma {:induction false} RowOf(s: string, tens: char)
    requires s == [tens, '0', tens, '1', tens, '2', tens, '3', tens, '4', tens, '5', tens, '6', tens, '7', tens, '8',
               tens, '9']
    ensures Row(s, tens)
  {
  }

  /** A table whose rows of twenty characters are the tens. */
  ghost predicate Rows(s: string, tens: nat) {
    && |s| == 20 * tens
    && forall r | 0 <= r < 10 * tens :: s[2 * r] as int == 48 + r / 10 && s[2 * r + 1] as int == 48 + r % 10
  }

  lemma {:induction false} RowsPlus(s: string, tens: nat, row: string, c: char)
    requires Rows(s, tens) && tens < 10 && Row(row, c) && c as int == 48 + tens
    ensures Rows(s + row, tens + 1)
  {
    forall r | 0 <= r < 10 * (tens + 1)
      ensures (s + row)[2 * r] as int == 48 + r / 10 && (s + row)[2 * r + 1] as int == 48 + r % 10
    {
      if r >= 10 * tens {
        var j := r - 10 * tens;
        assert (s + row)[2 * r] == row[2 * j] && (s + row)[2 * r + 1] == row[2 * j + 1];
      }
    }
  }

  lemma {:induction false} AllPairs()
    ensures Rows(DIGITS, 10)
  {
    RowOf("00010203040506070809", '0');
    RowOf("10111213141516171819", '1');
    RowOf("20212223242526272829", '2');
    RowOf("30313233343536373839", '3');
    RowOf("40414243444546474849", '4');
    RowOf("50515253545556575859", '5');
    RowOf("60616263646566676869", '6');
    RowOf("70717273747576777879", '7');
    RowOf("80818283848586878889", '8');
    RowOf("90919293949596979899", '9');
    var s := "00010203040506070809";
    RowsPlus("", 0, s, '0');
    assert "" + s == s;
    RowsPlus(s, 1, "10111213141516171819", '1');
    s := s + "10111213141516171819";
    RowsPlus(s, 2, "20212223242526272829", '2');
    s := s + "20212223242526272829";
    RowsPlus(s, 3, "30313233343536373839", '3');
    s := s + "30313233343536373839";
    RowsPlus(s, 4, "40414243444546474849", '4');
    s := s + "40414243444546474849";
    RowsPlus(s, 5, "50515253545556575859", '5');
    s := s + "50515253545556575859";
    RowsPlus(s, 6, "60616263646566676869", '6');
    s := s + "60616263646566676869";
    RowsPlus(s, 7, "70717273747576777879", '7');
    s := s + "70717273747576777879";
    RowsPlus(s, 8, "80818283848586878889", '8');
    s := s + "80818283848586878889";
    RowsPlus(s, 9, "90919293949596979899", '9');
  }

  lemma {:induction false} DigitsAtMost(n: nat, k: nat)
    requires k >= 1 && n < Pow10(k)
    ensures |Digits(n)| <= k
  {
    if n >= 10 {
      assert k > 1;
      DigitsAtMost(n / 10, k - 1);
    }
  }

  lemma {:induction false} AtMost19Digits(n: nat)
    requires n <= I64_MAX
    ensures |Digits(n)| <= 19
  {
    assert Pow10(9) == 1_000_000_000;
    assert Pow10(19) == 10_000_000_000_000_000_000;
    DigitsAtMost(n, 19);
  }

  function Pair(r: nat): seq<Byte>
    requires r < 100
  {
    [48 + r / 10, 48 + r % 10]
  }

  lemma {:induction false} TwoDigits(u: nat)
    requires u >= 10
    ensures u < 100 ==> Digits(u) == Pair(u)
    ensures u >= 100 ==> Digits(u) == Digits(u / 100) + Pair(u % 100)
  {
    assert u / 10 / 10 == u / 100 && u / 10 % 10 == u % 100 / 10 && u % 10 == u % 100 % 10;
    if u >= 100 {
      assert Digits(u / 10) == Digits(u / 100) + [48 + u % 100 / 10];
    }
  }

  lemma {:induction false} Regroup(a: seq<Byte>, b: seq<Byte>, c: seq<Byte>)
    ensures (a + b) + c == a + (b + c)
  {
  }

  class Writer {
    const fmt: array<Byte>
    const pairs: array<Byte>
    var ready: bool

    ghost predicate Valid()
      reads this, fmt, pairs
    {
      && fmt.Length == 24 && pairs.Length == 200 && fmt != pairs
      && (ready ==> PairsOk())
    }

    ghost predicate PairsOk()
      requires pairs.Length == 200
      reads pairs
    {
      forall r | 0 <= r < 100 :: pairs[2 * r] == 48 + r / 10 && pairs[2 * r + 1] == 48 + r % 10
    }

    constructor ()
      ensures Valid() && fresh(fmt) && fresh(pairs) && !ready
    {
      fmt := new Byte[24];
      pairs := new Byte[200];
      ready := false;
    }

    /** `pairsReady`: the pair table is filled on first use. */
    method PairsReady()
      requires Valid()
      modifies this`ready, pairs
      ensures Valid() && ready
    {
      if ready {
        return;
      }
      AllPairs();
      CopyPairs(DIGITS);
      ready := true;
    }

    method CopyPairs(digits: string)
      requires Rows(digits, 10) && pairs.Length == 200
      modifies pairs
      ensures PairsOk()
    {
      var i := 0;
      while i < 200
        invariant 0 <= i <= 200
        invariant forall k | 0 <= k < i :: pairs[k] == digits[k] as int
      {
        assert digits[2 * (i / 2)] as int < 58 && digits[2 * (i / 2) + 1] as int < 58;
        assert i == 2 * (i / 2) || i == 2 * (i / 2) + 1;
        pairs[i] := digits[i] as int;
        i := i + 1;
      }
    }

    /** The two digits of `r` go in at `end`. */
    method PutPair(end: nat, r: nat)
      requires Valid() && ready && end + 1 < 24 && r < 100
      modifies fmt
      ensures fmt[end..] == Pair(r) + old(fmt[end + 2..])
      ensures forall k | 0 <= k < end :: fmt[k] == old(fmt[k])
    {
      fmt[end] := pairs[r * 2];
      fmt[end + 1] := pairs[r * 2 + 1];
    }

    method PutByte(end: nat, b: Byte)
      requires end < fmt.Length
      modifies fmt
      ensures fmt[end..] == [b] + old(fmt[end + 1..])
      ensures forall k | 0 <= k < end :: fmt[k] == old(fmt[k])
    {
      fmt[end] := b;
    }

    /** The digits, backwards from `start`. */
    method PutDigits(n: nat) returns (end: int)
      requires Valid() && ready && n <= I64_MAX
      modifies fmt
      ensures 5 <= end <= 23 && fmt[end..] == Digits(n)
      ensures forall k | 0 <= k < end :: fmt[k] == old(fmt[k])
    {
      end := 24;
      var u := n;
      AtMost19Digits(n);
      while u >= 100
        invariant 0 <= u && 5 <= end <= 24
        invariant Digits(n) == Digits(u) + fmt[end..]
        invariant forall k | 0 <= k < end :: fmt[k] == old(fmt[k])
      {
        TwoDigits(u);
        ghost var tail := fmt[end..];
        end := end - 2;
        PutPair(end, u % 100);
        Regroup(Digits(u / 100), Pair(u % 100), tail);
        u := u / 100;
      }
      if u >= 10 {
        TwoDigits(u);
        end := end - 2;
        PutPair(end, u);
      } else {
        end := end - 1;
        PutByte(end, 48 + u);
      }
    }

    /**
     `fmtI64Fast`: for every number but the type's minimum the buffer's tail from the returned
     position is the number in decimal, and nothing is written before its fifth byte.
     */
    method FmtI64Fast(v: int) returns (end: int)
      requires Valid() && ready && -I64_MAX <= v <= I64_MAX
      modifies fmt
      ensures Valid() && 4 <= end <= 23 && fmt[end..] == Decimal(v)
      ensures forall k | 0 <= k < end :: fmt[k] == old(fmt[k])
    {
      var u := v;
      var neg := v < 0;
      if neg {
        u := 0 - u;
      }
      end := PutDigits(u);
      if neg {
        end := end - 1;
        PutByte(end, MINUS);
      }
    }

    /** `<<` for an integer: what goes to the output. */
    method ShiftLeft(v: int) returns (out: seq<Byte>)
      requires Valid() && -I64_MAX <= v <= I64_MAX
      modifies this`ready, pairs, fmt
      ensures Valid() && out == Decimal(v)
    {
      PairsReady();
      var st := FmtI64Fast(v);
      out := fmt[st..];
    }
  }
}
