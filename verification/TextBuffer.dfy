/**
 The growing byte string of the emitted runtime and the recursive integer printer on top of it.
 What the owning pool contributes is passed in: its generation at the time of the call, and
 whether it refuses to move blocks.
 */
module TextBuffer {
  import opened IntText

  /** `NeverReturns` stands for a loop that does not end. */
  datatype Effect = Done | Trapped | NeverReturns

  // ---------------------------------------------------------------- the growing loop

  /** What the loop `while cap < need` of an append depends on; its body is `grow`. */
  datatype Loop = Loop(pid: int, cap: int, need: int)

  /** What `grow` makes of the capacity: half as much again, and nothing for a poisoned string. */
  function Regrown(pid: int, cap: int): int {
    if pid < 0 then cap else cap + cap / 2
  }

  /** The capacity after `k` rounds. */
  function CapAfter(l: Loop, k: nat): int {
    if k == 0 then l.cap else Regrown(l.pid, CapAfter(l, k - 1))
  }

  /** After every number of rounds the loop goes on. */
  ghost predicate Diverges(l: Loop) {
    forall k: nat :: CapAfter(l, k) < l.need
  }

  /** The first of the capacities that is enough. */
  ghost predicate FirstFit(l: Loop, cap: int) {
    cap >= l.need && exists k: nat :: cap == CapAfter(l, k) && forall j: nat | j < k :: CapAfter(l, j) < l.need
  }

  /** The loop goes on for ever exactly if the string is poisoned and the text does not fit. */
  lemma {:induction false} DivergesIff(l: Loop)
    requires l.pid >= 0 ==> l.cap >= 2
    ensures Diverges(l) <==> l.pid < 0 && l.cap < l.need
  {
    if l.pid < 0 {
      forall k: nat ensures CapAfter(l, k) == l.cap {
        PoisonedStays(l, k);
      }
    } else {
      var k: nat := if l.need < 0 then 0 else l.need;
      CapGrows(l, k);
      assert CapAfter(l, k) >= l.need;
    }
    assert CapAfter(l, 0) == l.cap;
  }

  lemma {:induction false} PoisonedStays(l: Loop, k: nat)
    requires l.pid < 0
    ensures CapAfter(l, k) == l.cap
  {
    if k > 0 {
      PoisonedStays(l, k - 1);
    }
  }

  /** A live string gains at least one cell a round. */
  lemma {:induction false} CapGrows(l: Loop, k: nat)
    requires l.pid >= 0 && l.cap >= 2
    ensures CapAfter(l, k) >= l.cap + k
  {
    if k > 0 {
      CapGrows(l, k - 1);
    }
  }

  class ByteString {
    var buf: array<Byte>
    var n: int
    var cap: int
    var pid: int
    var pidGen: nat

    /** In order, or poisoned: a string whose pool went away has no cells left. */
    ghost predicate Valid()
      reads this
    {
      && cap == buf.Length && 0 <= n <= cap
      && if pid >= 0 then 16 <= cap else cap == 0
    }

    ghost predicate Alive(gen: nat)
      reads this
    {
      pid >= 0 && gen == pidGen
    }

    /** The loop of an append of `len` bytes, once a stale string has been poisoned. */
    ghost function AppendLoop(gen: nat, len: nat): Loop
      reads this
    {
      if Alive(gen) then Loop(pid, cap, n + len) else Loop(-1, 0, len)
    }

    ghost function Text(): seq<Byte>
      requires Valid()
      reads this, buf
    {
      buf[..n]
    }

    /** `string$string_new`: the cells are whatever memory held. */
    constructor (c: int, rp: int, rpg: nat)
      requires rp >= 0
      ensures Valid() && fresh(buf) && Alive(rpg) && Text() == []
    {
      var cc := if c < 16 then 16 else c;
      buf := new Byte[cc];
      n, cap, pid, pidGen := 0, cc, rp, rpg;
    }

    /** `pStale` and `pPoison`, as every change of the string begins. */
    method PoisonIfStale(gen: nat)
      requires Valid()
      modifies this
      ensures Valid() && pidGen == old(pidGen) && (buf == old(buf) || fresh(buf))
      ensures old(Alive(gen)) ==> Alive(gen) && buf == old(buf) && n == old(n) && cap == old(cap) && pid == old(pid)
      ensures !old(Alive(gen)) ==> pid < 0 && n == 0
    {
      if pid >= 0 && gen != pidGen {
        buf := new Byte[0];
        n, cap, pid := 0, 0, -1;
      }
    }

    /** `grow`: half as much again, what the new cells hold is anybody's guess. */
    method Grow(refused: bool) returns (r: Effect)
      requires Valid()
      modifies this`buf, this`cap
      ensures r == if pid >= 0 && refused then Trapped else Done
      ensures Valid() && (buf == old(buf) || fresh(buf)) && Text() == old(Text())
      ensures cap == if r.Done? then Regrown(pid, old(cap)) else old(cap)
      ensures cap == if pid >= 0 && !refused then old(cap) + old(cap) / 2 else old(cap)
    {
      if pid < 0 {
        return Done;
      }
      if refused {
        return Trapped;
      }
      var ncap := cap + cap / 2;
      var larger := new Byte[ncap];
      forall i | 0 <= i < n {
        larger[i] := buf[i];
      }
      buf, cap := larger, ncap;
      r := Done;
    }

    method Push(b: Byte, gen: nat, refused: bool) returns (r: Effect)
      requires Valid()
      modifies this, buf
      ensures Valid() && (buf == old(buf) || fresh(buf))
      ensures r == if old(Alive(gen) && (n < cap || !refused)) then Done else Trapped
      ensures r.Done? ==> Alive(gen) && Text() == old(Text()) + [b] && (refused ==> cap == old(cap))
      ensures r.Done? ==> cap == if old(n < cap) then old(cap) else old(cap) + old(cap) / 2
    {
      PoisonIfStale(gen);
      if n >= cap {
        r := Grow(refused);
        if !r.Done? {
          return;
        }
      }
      if n >= buf.Length {
        return Trapped;
      }
      buf[n] := b;
      n := n + 1;
      r := Done;
    }

    /**
     `append`.  For bytes appended to a string whose pool is gone the growing loop goes on for ever;
     otherwise the bytes are appended, or a growth that is needed is refused.
     */
    method Append(s: seq<Byte>, gen: nat, refused: bool) returns (r: Effect)
      requires Valid()
      modifies this, buf
      ensures Valid() && (buf == old(buf) || fresh(buf))
      ensures r.NeverReturns? <==> s != [] && Diverges(old(AppendLoop(gen, |s|)))
      ensures Diverges(old(AppendLoop(gen, |s|))) <==> s != [] && !old(Alive(gen))
      ensures r.Trapped? <==> old(Alive(gen)) && old(cap - n) < |s| && refused
      ensures r.Done? && old(Alive(gen)) ==> Alive(gen) && Text() == old(Text()) + s && (refused ==> cap == old(cap))
      ensures r.Done? && old(Alive(gen)) && s != [] ==> FirstFit(old(AppendLoop(gen, |s|)), cap)
      ensures r.Done? && !old(Alive(gen)) ==> Text() == []
    {
      DivergesIff(AppendLoop(gen, |s|));
      PoisonIfStale(gen);
      if |s| <= 0 {
        return Done;
      }
      if pid < 0 {
        // the loop below would not end
        return NeverReturns;
      }
      var need := n + |s|;
      r := GrowTo(need, refused);
      if !r.Done? {
        return;
      }
      ghost var text := Text();
      forall i | 0 <= i < |s| {
        buf[n + i] := s[i];
      }
      assert buf[..need] == text + s;
      n := need;
    }

    /** The growing loop of a live string ends after the first round that makes enough room. */
    method GrowTo(need: int, refused: bool) returns (r: Effect)
      requires Valid() && pid >= 0
      modifies this`buf, this`cap
      ensures Valid() && (buf == old(buf) || fresh(buf)) && Text() == old(Text())
      ensures r == if old(cap) < need && refused then Trapped else Done
      ensures r.Done? ==> FirstFit(old(Loop(pid, cap, need)), cap)
      ensures old(cap) >= need || refused ==> cap == old(cap)
    {
      ghost var l, k := Loop(pid, cap, need), 0;
      while cap < need
        invariant Valid() && Text() == old(Text()) && (buf == old(buf) || fresh(buf))
        invariant k >= 0 && cap == CapAfter(l, k) && (old(cap) >= need || refused ==> cap == old(cap))
        invariant forall j: nat | j < k :: CapAfter(l, j) < need
        decreases need - cap
      {
        r := Grow(refused);
        if !r.Done? {
          return;
        }
        k := k + 1;
      }
      r := Done;
    }

    /** `pushI64`: appends the number in decimal, one digit per call. */
    method PushI64(v: int, gen: nat, refused: bool) returns (r: Effect)
      requires Valid() && -I64_MAX <= v <= I64_MAX
      modifies this, buf
      ensures Valid() && (buf == old(buf) || fresh(buf))
      ensures r.Done? ==> Alive(gen) && Text() == old(Text()) + Decimal(v)
      ensures r.Done? && refused ==> cap == old(cap)
      ensures old(Alive(gen)) ==> r == if refused && old(cap - n) < |Decimal(v)| then Trapped else Done
      ensures !old(Alive(gen)) ==> r == if v < 0 then NeverReturns else Trapped
      decreases if v < 0 then -v else v
    {
      var m := v;
      if m < 0 {
        r := Append([MINUS], gen, refused);
        if !r.Done? {
          return;
        }
        m := 0 - m;
      }
      ghost var text := Text();
      if m >= 10 {
        r := PushI64(m / 10, gen, refused);
        if !r.Done? {
          return;
        }
      }
      DecimalAppended(old(Text()), text, v, m);
      r := Push(48 + m % 10, gen, refused);
    }
  }

  /** The sign, the leading digits and the last one, appended one after the other, are the decimal notation. */
  lemma {:induction false} DecimalAppended(before: seq<Byte>, text: seq<Byte>, v: int, m: nat)
    requires m == if v < 0 then -v else v
    requires text == if v < 0 then before + [MINUS] else before
    ensures (if m >= 10 then text + Digits(m / 10) else text) + [48 + m % 10] == before + Decimal(v)
  {
    if m >= 10 {
      assert (text + Digits(m / 10)) + [48 + m % 10] == text + Digits(m);
    }
    if v < 0 {
      assert (before + [MINUS]) + Digits(m) == before + ([MINUS] + Digits(m));
    }
  }
}
