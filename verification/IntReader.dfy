/**
 The integer reader of the emitted runtime: a buffer refilled from a stream that arrives in chunks
 of any size, one byte of lookahead that is put back, and an inner loop over the digits at hand.
 */
module IntReader {
  import opened IntText

  lemma {:induction false} Pow10UpTo18(n: nat)
    requires n <= 18
    ensures Pow10(n) <= 1_000_000_000_000_000_000
    decreases 18 - n
  {
    if n < 18 {
      Pow10UpTo18(n + 1);
    } else {
      assert Pow10(9) == 1_000_000_000;
      assert Pow10(18) == 1_000_000_000_000_000_000;
    }
  }

  /** What the accumulator keeps: `nd` digits so far come to at most `nd` nines. */
  predicate Accumulated(v: int, nd: nat) {
    0 <= v <= I64_MAX && (nd <= 18 ==> v < Pow10(nd))
  }

  /** `accDigit`: the first 18 digits go unchecked, and still a digit is accepted exactly when the value fits. */
  method AccDigit(v: int, nd: nat, d: int) returns (ok: bool, v': int, nd': nat)
    requires Accumulated(v, nd) && 0 <= d <= 9
    ensures ok <==> 10 * v + d <= I64_MAX
    ensures ok ==> v' == 10 * v + d && nd' == nd + 1 && Accumulated(v', nd')
    ensures !ok ==> v' == v && nd' == nd
  {
    v', nd' := v, nd;
    if nd < 18 {
      Pow10UpTo18(nd + 1);
      v' := v * 10 + d;
    } else {
      if v > (I64_MAX - d) / 10 {
        return false, v', nd';
      }
      v' := v * 10 + d;
    }
    nd' := nd + 1;
    ok := true;
  }

  /** The stream still to arrive, as it happens to be cut. */
  function Flat(chunks: seq<seq<Byte>>): seq<Byte> {
    if chunks == [] then [] else chunks[0] + Flat(chunks[1..])
  }

  /** A digit at the front is taken into the value, or is where the number becomes too long. */
  lemma {:induction false} InNumberDigit(neg: bool, v: int, b: Byte, s: seq<Byte>)
    requires IsDigit(b)
    ensures InNumber(neg, v, [b] + s) ==
            if 10 * v + DigitOf(b) <= I64_MAX then InNumber(neg, 10 * v + DigitOf(b), s) else Read(TooLong(v), s)
  {
    assert ([b] + s)[1..] == s;
  }

  lemma {:induction false} NextByte(b: Byte, s: seq<Byte>)
    ensures Next([b] + s) ==
            if IsSpace(b) then Next(s) else if b == MINUS then AfterSign(true, s) else AfterSign(false, [b] + s)
  {
    assert ([b] + s)[1..] == s;
  }

  lemma {:induction false} EndByte(neg: bool, v: int, b: Byte, s: seq<Byte>)
    requires !IsDigit(b)
    ensures InNumber(neg, v, [b] + s) == Read(Number(Signed(neg, v)), AfterNumber([b] + s))
    ensures b != RETURN ==> AfterNumber([b] + s) == s
  {
    assert ([b] + s)[1..] == s;
  }

  lemma {:induction false} AfterSignByte(neg: bool, b: Byte, s: seq<Byte>)
    ensures AfterSign(neg, [b] + s) == if IsDigit(b) then InNumber(neg, 0, [b] + s) else AfterSign(neg, s)
  {
    assert ([b] + s)[1..] == s;
  }

  /**
   The variables of the scan: the sign, the value and count of the digits so far, whether there were
   any, whether the sign is settled, the byte pushed back, whether a bad byte ended the number.
   */
  datatype Scan = Scan(neg: bool, v: int, nd: nat, saw: bool, seen: bool, pushed: int, bad: bool)

  predicate ScanOk(st: Scan) {
    && Accumulated(st.v, st.nd) && 0 <= st.pushed < 256
    && (!st.saw ==> st.v == 0 && st.nd == 0 && !st.bad) && (!st.seen ==> !st.neg)
    && (st.pushed > 0 ==> st.seen) && (st.saw ==> st.seen && st.pushed == 0)
  }

  /** What the scan has still to report, from its variables and the bytes ahead. */
  function Outstanding(st: Scan, ahead: seq<Byte>): Read
    requires st.pushed < 256
  {
    if !st.seen then Next(ahead)
    else if !st.saw then AfterSign(st.neg, if st.pushed > 0 then [st.pushed] + ahead else ahead)
    else if st.bad then Read(Number(Signed(st.neg, st.v)), ahead)
    else InNumber(st.neg, st.v, ahead)
  }

  /** The first byte that is no space settles the sign; any other than the sign is pushed back. */
  function Settle(st: Scan, b: Byte): (w: Scan)
    requires ScanOk(st) && !st.seen
    ensures ScanOk(w)
  {
    if IsSpace(b) then st
    else if b == MINUS then st.(seen := true, neg := true)
    else st.(seen := true, pushed := b)
  }

  /** Nothing is lost, not even a zero byte, which cannot be told from no byte pushed back. */
  lemma {:induction false} SettleKeeps(st: Scan, b: Byte, s: seq<Byte>)
    requires ScanOk(st) && !st.seen
    ensures Outstanding(Settle(st, b), s) == Outstanding(st, [b] + s)
  {
    NextByte(b, s);
    AfterSignByte(false, b, s);
  }

  datatype Result = Success(value: int) | LineTooLong(prefix: int)

  /** What a caller sees of a reading: the result, and the flag, which a failure leaves alone. */
  function Reported(what: Reading, got: bool): (Result, bool) {
    match what
    case Number(n) => (Success(n), true)
    case Nothing => (Success(0), false)
    case TooLong(v) => (LineTooLong(v), got)
  }

  /** What calls in a row report, each leaving its flag to the next. */
  function Reports(whats: seq<Reading>, got: bool): seq<(Result, bool)> {
    if whats == [] then [] else [Reported(whats[0], got)] + Reports(whats[1..], Reported(whats[0], got).1)
  }

  lemma {:induction false} ReportsGoOn(what: Reading, whats: seq<Reading>, got: bool)
    ensures Reports([what] + whats, got) == [Reported(what, got)] + Reports(whats, Reported(what, got).1)
  {
    assert ([what] + whats)[1..] == whats;
  }

  class Reader {
    const buf: array<Byte>
    var len: int
    var pos: int
    var bad: bool
    var chunks: seq<seq<Byte>>

    /** The bytes ahead of the reader. */
    ghost var ahead: seq<Byte>

    ghost predicate Valid()
      reads this, buf
    {
      && 0 <= pos <= len <= buf.Length && ahead == buf[pos..len] + Flat(chunks)
      && forall i | 0 <= i < |chunks| :: 0 < |chunks[i]| <= buf.Length
    }

    constructor (size: nat, chunks: seq<seq<Byte>>)
      requires forall i | 0 <= i < |chunks| :: 0 < |chunks[i]| <= size
      ensures Valid() && fresh(buf) && ahead == Flat(chunks) && !bad
    {
      buf := new Byte[size];
      len, pos, bad := 0, 0, false;
      this.chunks, ahead := chunks, Flat(chunks);
    }

    /** `fillState`: a read delivers the next chunk, or nothing for good once the stream has ended. */
    method FillState() returns (n: int)
      requires Valid() && pos == len
      modifies this`len, this`pos, this`chunks, buf
      ensures Valid() && pos == 0 && len == n && (n == 0 <==> ahead == [])
    {
      if chunks == [] {
        n := 0;
        len, pos := 0, 0;
      } else {
        var c := chunks[0];
        forall i | 0 <= i < |c| {
          buf[i] := c[i];
        }
        n := |c|;
        len, pos := n, 0;
        chunks := chunks[1..];
        assert buf[0..n] == c;
      }
    }

    /** The next byte of the buffer. */
    method Take() returns (b: Byte)
      requires Valid() && pos < len
      modifies this`pos, this`ahead
      ensures Valid() && old(ahead) == [b] + ahead && pos == old(pos) + 1 && b == buf[pos - 1]
    {
      b := buf[pos];
      assert buf[pos..len] == [buf[pos]] + buf[pos + 1..len];
      assert ahead[1..] == buf[pos + 1..len] + Flat(chunks);
      pos := pos + 1;
      ahead := ahead[1..];
    }

    /** The next byte, or -1 at the end of the stream. */
    method Fetch() returns (b: int)
      requires Valid()
      modifies this`len, this`pos, this`chunks, this`ahead, buf
      ensures Valid()
      ensures b < 0 ==> b == -1 && old(ahead) == ahead == []
      ensures b >= 0 ==> b < 256 && old(ahead) == [b] + ahead && 1 <= pos && buf[pos - 1] == b
    {
      if pos >= len {
        var n := FillState();
        if n == 0 {
          return -1;
        }
      }
      b := Take();
    }

    /** The byte just fetched is put back. */
    method Unread()
      requires Valid() && 1 <= pos
      modifies this`pos, this`ahead
      ensures pos == old(pos) - 1 && Valid() && ahead == [buf[pos]] + old(ahead)
    {
      pos := pos - 1;
      ahead := [buf[pos]] + ahead;
      assert buf[pos..len] == [buf[pos]] + buf[pos + 1..len];
    }

    /** The digit at hand. */
    method TakeDigit(neg: bool, v0: int, nd0: nat) returns (ok: bool, v: int, nd: nat)
      requires Valid() && Accumulated(v0, nd0) && pos < len && IsDigit(buf[pos])
      modifies this`pos, this`ahead
      ensures Valid() && Accumulated(v, nd) && |ahead| + 1 == |old(ahead)| && pos == old(pos) + 1
      ensures InNumber(neg, v0, old(ahead)) == if ok then InNumber(neg, v, ahead) else Read(TooLong(v), ahead)
    {
      var nb := Take();
      InNumberDigit(neg, v0, nb, ahead);
      ok, v, nd := AccDigit(v0, nd0, nb - 48);
    }

    /** The inner loop: digits that are already in the buffer, as long as they fit. */
    method FastDigits(neg: bool, v0: int, nd0: nat) returns (ok: bool, v: int, nd: nat)
      requires Valid() && Accumulated(v0, nd0)
      modifies this`pos, this`ahead
      ensures Valid() && Accumulated(v, nd) && |ahead| <= |old(ahead)|
      ensures InNumber(neg, v0, old(ahead)) == if ok then InNumber(neg, v, ahead) else Read(TooLong(v), ahead)
    {
      v, nd := v0, nd0;
      ghost var goal := InNumber(neg, v0, ahead);
      while pos < len
        invariant Valid() && Accumulated(v, nd) && |ahead| <= |old(ahead)|
        invariant InNumber(neg, v, ahead) == goal
        decreases len - pos
      {
        if buf[pos] < 48 || buf[pos] > 57 {
          break;
        }
        ok, v, nd := TakeDigit(neg, v, nd);
        if !ok {
          return;
        }
      }
      ok := true;
    }

    /** A digit that was fetched, and the ones after it that are in the buffer. */
    method TakeDigits(neg: bool, v0: int, nd0: nat, b: Byte) returns (ok: bool, v: int, nd: nat)
      requires Valid() && Accumulated(v0, nd0) && IsDigit(b)
      modifies this`pos, this`ahead
      ensures Valid() && Accumulated(v, nd) && |ahead| <= |old(ahead)|
      ensures InNumber(neg, v0, [b] + old(ahead)) == if ok then InNumber(neg, v, ahead) else Read(TooLong(v), ahead)
    {
      InNumberDigit(neg, v0, b, ahead);
      ok, v, nd := AccDigit(v0, nd0, b - 48);
      if ok {
        ok, v, nd := FastDigits(neg, v, nd);
      }
    }

    /** A carriage return also takes its newline, if that one has arrived. */
    method TakeNewline()
      requires Valid()
      modifies this`pos, this`ahead
      ensures Valid() && Leaves(ahead, AfterNumber([RETURN] + old(ahead)))
    {
      ghost var was := ahead;
      assert ([RETURN] + was)[1..] == was;
      assert was != [] ==> ([RETURN] + was)[2..] == was[1..] && was == [was[0]] + was[1..];
      if pos < len && buf[pos] == NEWLINE {
        var b := Take();
        assert was[0] == NEWLINE && was[1..] == ahead;
      }
    }

    /** The byte after the digits: a line end is taken, anything else is noted as bad. */
    method IsBadEnd(b: Byte) returns (badByte: bool)
      requires Valid()
      modifies this`pos, this`ahead
      ensures Valid() && Leaves(ahead, AfterNumber([b] + old(ahead)))
      ensures badByte ==> ahead == old(ahead) == AfterNumber([b] + old(ahead))
    {
      assert ([b] + ahead)[1..] == ahead;
      if b == NEWLINE {
        return false;
      }
      if b == RETURN {
        TakeNewline();
        return false;
      }
      badByte := true;
    }

    /**
     A byte once the sign is settled: digits are taken in, other bytes are skipped before the first
     digit and end the number after it.
     */
    method Consume(st: Scan, b: Byte) returns (w: Scan, ok: bool, more: bool)
      requires Valid() && ScanOk(st) && st.seen && !st.bad && st.pushed == 0
      modifies this`pos, this`ahead
      ensures Valid() && w.pushed == 0 && (ok && more ==> |ahead| <= |old(ahead)|)
      ensures !ok ==> Outstanding(st, [b] + old(ahead)) == Read(TooLong(w.v), ahead)
      ensures ok && more ==> ScanOk(w) && w.seen && Outstanding(w, ahead) == Outstanding(st, [b] + old(ahead))
      ensures ok && !more ==> w.saw && Outstanding(st, [b] + old(ahead)).what == Number(Signed(w.neg, w.v))
      ensures ok && !more ==> Leaves(ahead, Outstanding(st, [b] + old(ahead)).rest)
    {
      w, ok, more := st, true, true;
      AfterSignByte(st.neg, b, ahead);
      if IsDigit(b) {
        var v, nd;
        ok, v, nd := TakeDigits(st.neg, st.v, st.nd, b);
        w := st.(v := v, nd := nd, saw := true);
      } else if st.saw {
        EndByte(st.neg, st.v, b, ahead);
        var bad := IsBadEnd(b);
        w := st.(bad := bad);
        more := bad;
      }
    }

    /** One round of the scan: it goes on, has what it reports, or has found the number too long. */
    method ScanByte(st: Scan) returns (w: Scan, ok: bool, more: bool)
      requires Valid() && ScanOk(st)
      modifies this`len, this`pos, this`chunks, this`ahead, buf
      ensures Valid() && w.pushed >= 0
      ensures !ok ==> Outstanding(st, old(ahead)) == Read(TooLong(w.v), ahead)
      ensures ok && more ==> ScanOk(w) && Outstanding(w, ahead) == Outstanding(st, old(ahead))
      ensures ok && more ==> |ahead| < |old(ahead)| || (|ahead| == |old(ahead)| && w.pushed < st.pushed)
      ensures ok && !more ==>
                && Outstanding(st, old(ahead)).what == (if w.saw then Number(Signed(w.neg, w.v)) else Nothing)
                && Leaves(ahead, Outstanding(st, old(ahead)).rest)
    {
      w, ok, more := st.(pushed := 0), true, false;
      var b := st.pushed;
      if b <= 0 {
        b := Fetch();
      }
      if b < 0 {
        return;
      }
      if !st.seen {
        SettleKeeps(st, b, ahead);
        return Settle(st, b), true, true;
      }
      if st.bad {
        Unread();
        return;
      }
      w, ok, more := Consume(w, b);
    }

    /**
     `nextI64State`: the outcome is what the bytes ahead determine, however they are cut into
     chunks, and the bytes left are the ones after it, but for the newline of a carriage return that
     came with a later chunk.
     */
    method NextI64State(got0: bool) returns (r: Result, got: bool)
      requires Valid()
      modifies this`len, this`pos, this`chunks, this`ahead, buf
      ensures Valid()
      ensures (r, got) == Reported(Next(old(ahead)).what, got0)
      ensures Leaves(ahead, Next(old(ahead)).rest)
    {
      var st, ok, more := Scan(false, 0, 0, false, false, 0, false), true, true;
      ghost var goal := Next(ahead);
      while more
        invariant Valid() && ok && st.pushed >= 0
        invariant more ==> ScanOk(st) && goal == Outstanding(st, ahead)
        invariant !more ==> goal.what == (if st.saw then Number(Signed(st.neg, st.v)) else Nothing)
        invariant !more ==> Leaves(ahead, goal.rest)
        decreases more, |ahead|, st.pushed
      {
        st, ok, more := ScanByte(st);
        if !ok {
          return LineTooLong(st.v), got0;
        }
      }
      r, got := Finish(st, got0);
    }

    /** Calls in a row, each with the flag the one before left: they report what the bytes ahead determine. */
    method NextMany(k: nat, got0: bool) returns (outs: seq<(Result, bool)>)
      requires Valid()
      modifies this`len, this`pos, this`chunks, this`ahead, buf
      ensures Valid() && outs == Reports(Readings(old(ahead), k), got0)
    {
      outs := [];
      var got := got0;
      for i := 0 to k
        invariant Valid() && Reports(Readings(old(ahead), k), got0) == outs + Reports(Readings(ahead, k - i), got)
      {
        ghost var s, was, before := ahead, got, outs;
        var r;
        r, got := NextI64State(got);
        ReadingsGoOn(s, ahead, k - i - 1);
        outs := outs + [(r, got)];
        ReportsGoOn(Next(s).what, Readings(ahead, k - i - 1), was);
        assert before + ([(r, got)] + Reports(Readings(ahead, k - i - 1), got))
            == outs + Reports(Readings(ahead, k - i - 1), got);
      }
    }

    method Finish(st: Scan, got0: bool) returns (r: Result, got: bool)
      ensures (r, got) == Reported(if st.saw then Number(Signed(st.neg, st.v)) else Nothing, got0)
    {
      got := st.saw;
      if !st.saw {
        return Success(0), got;
      }
      if st.neg {
        return Success(0 - st.v), got;
      }
      return Success(st.v), got;
    }

    /** The stream operator: the target changes only for a number, and anything else marks the stream bad. */
    method ShiftRight(target: int) returns (v: int)
      requires Valid()
      modifies this, buf
      ensures Valid() && Leaves(ahead, Next(old(ahead)).rest)
      ensures v == (match Next(old(ahead)).what case Number(n) => n case _ => target)
      ensures bad <==> old(bad) || !Next(old(ahead)).what.Number?
    {
      v := target;
      var r, got := NextI64State(false);
      if r.Success? {
        if got {
          v := r.value;
        } else {
          bad := true;
        }
      } else {
        bad := true;
      }
    }
  }

  /**
   Two readers, with buffers of any size, on the same bytes cut into chunks in any two ways: any number
   of calls report the same.
   */
  method ChunksDoNotMatter(sizeA: nat, chunksA: seq<seq<Byte>>, sizeB: nat, chunksB: seq<seq<Byte>>, k: nat,
          got: bool)
    returns (outsA: seq<(Result, bool)>, outsB: seq<(Result, bool)>)
    requires forall i | 0 <= i < |chunksA| :: 0 < |chunksA[i]| <= sizeA
    requires forall i | 0 <= i < |chunksB| :: 0 < |chunksB[i]| <= sizeB
    requires Flat(chunksA) == Flat(chunksB)
    ensures outsA == outsB == Reports(Readings(Flat(chunksA), k), got)
  {
    var a := new Reader(sizeA, chunksA);
    outsA := a.NextMany(k, got);
    var b := new Reader(sizeB, chunksB);
    outsB := b.NextMany(k, got);
  }
}
