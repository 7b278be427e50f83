/**
 The slot map behind generational handles, as a state: a dense array of values, a sparse table of
 packed entries, and free slots chained through the same packed words.
 */
module SlotMapState {
  import opened Wrappers
  import opened Chains

  // ---------------------------------------------------------------- packed words

  /** Two's complement wrap-around: whole turns of 2^32 are taken off until the number fits. */
  function Wrap32(x: int): (r: int)
    ensures -0x8000_0000 <= r < 0x8000_0000
    decreases if x < 0 then -x else x + 1
  {
    if x < -0x8000_0000 then Wrap32(x + 0x1_0000_0000)
    else if x >= 0x8000_0000 then Wrap32(x - 0x1_0000_0000)
    else x
  }

  lemma {:induction false} WrapTurns(x: int) returns (q: int)
    ensures Wrap32(x) == x - q * 0x1_0000_0000
    decreases if x < 0 then -x else x + 1
  {
    if x < -0x8000_0000 {
      q := WrapTurns(x + 0x1_0000_0000);
      q := q - 1;
    } else if x >= 0x8000_0000 {
      q := WrapTurns(x - 0x1_0000_0000);
      q := q + 1;
    } else {
      q := 0;
    }
  }

  function Wrap64(x: int): int {
    (x + 0x8000_0000_0000_0000) % 0x1_0000_0000_0000_0000 - 0x8000_0000_0000_0000
  }

  /** The low half of a 64-bit word: `e & 0xFFFFFFFF`. */
  function PLow(e: int): (low: int)
    ensures 0 <= low < 0x1_0000_0000
  {
    e % 0x1_0000_0000
  }

  /** The high half, sign included: `e >> 32`. */
  function PGen(e: int): int {
    e / 0x1_0000_0000
  }

  /** `(gen << 32) | low`; the shifted word has no low bits, so the or is a sum. */
  function PPack(gen: int, low: int): int
    requires 0 <= low < 0x1_0000_0000
  {
    Wrap64(gen * 0x1_0000_0000) + low
  }

  function PEp(v: int): int {
    v % 0x1_0000_0000
  }

  predicate Word(e: int) {
    -0x8000_0000_0000_0000 <= e < 0x8000_0000_0000_0000
  }

  lemma {:induction false} ShiftWraps(gen: int)
    ensures Wrap64(gen * 0x1_0000_0000) == Wrap32(gen) * 0x1_0000_0000
  {
    var q := WrapTurns(gen);
    var r := (Wrap32(gen) + 0x8000_0000) * 0x1_0000_0000;
    assert gen * 0x1_0000_0000 + 0x8000_0000_0000_0000 == q * 0x1_0000_0000_0000_0000 + r;
    ModOf(gen * 0x1_0000_0000 + 0x8000_0000_0000_0000, q, r);
  }

  lemma {:induction false} ModOf(x: int, q: int, r: int)
    requires x == q * 0x1_0000_0000_0000_0000 + r && 0 <= r < 0x1_0000_0000_0000_0000
    ensures x % 0x1_0000_0000_0000_0000 == r
  {
  }

  /** The two halves of a word. */
  datatype Entry = Entry(gen: int, low: int)

  function Unpack(e: int): Entry {
    Entry(PGen(e), PLow(e))
  }

  /** Packing and unpacking: the low half comes back, the generation up to 32-bit wrap-around. */
  lemma {:induction false} PackUnpack(gen: int, low: int)
    requires 0 <= low < 0x1_0000_0000
    ensures Unpack(PPack(gen, low)) == Entry(Wrap32(gen), low)
    ensures Word(PPack(gen, low))
  {
    ShiftWraps(gen);
    var g := Wrap32(gen);
    assert PPack(gen, low) == g * 0x1_0000_0000 + low;
    assert (g * 0x1_0000_0000 + low) / 0x1_0000_0000 == g && (g * 0x1_0000_0000 + low) % 0x1_0000_0000 == low;
  }

  predicate EntryOk(e: Entry) {
    -0x8000_0000 <= e.gen < 0x8000_0000 && 0 <= e.low < 0x1_0000_0000
  }

  /** Every word has an entry, and packing the entry gives the word back. */
  lemma {:induction false} UnpackPack(e: int)
    requires Word(e)
    ensures EntryOk(Unpack(e)) && PPack(Unpack(e).gen, Unpack(e).low) == e
  {
    var g := PGen(e);
    assert -0x8000_0000 <= g < 0x8000_0000;
    ShiftWraps(g);
    assert Wrap32(g) == g;
  }

  function UnpackAll(words: seq<int>): (es: seq<Entry>)
    ensures |es| == |words| && forall i | 0 <= i < |words| :: es[i] == Unpack(words[i])
  {
    seq(|words|, i requires 0 <= i < |words| => Unpack(words[i]))
  }

  lemma {:induction false} UnpackUpdate(words: seq<int>, i: int, w: int)
    requires 0 <= i < |words|
    ensures UnpackAll(words[i := w]) == UnpackAll(words)[i := Unpack(w)]
  {
  }

  lemma {:induction false} UnpackZeros(words: seq<int>, more: nat)
    ensures UnpackAll(Widened(words, more, 0)) == Widened(UnpackAll(words), more, Entry(0, 0))
  {
    assert Unpack(0) == Entry(0, 0);
  }

  /** `more` cells at the end, all alike. */
  function Widened<T>(xs: seq<T>, more: nat, x: T): (ys: seq<T>)
    ensures |ys| == |xs| + more && xs <= ys && forall i | |xs| <= i < |ys| :: ys[i] == x
  {
    xs + seq(more, _ => x)
  }

  lemma {:induction false} WrapTwice(x: int, k: int)
    ensures Wrap32(Wrap32(x) + k) == Wrap32(x + k)
  {
    var q := WrapTurns(x);
    assert (Wrap32(x) + k) - (x + k) == (-q) * 0x1_0000_0000;
    WrapSame(Wrap32(x) + k, x + k);
  }

  /** Wrapped generations agree exactly when the counts differ by a multiple of 2^32. */
  lemma {:induction false} WrapSame(x: int, y: int)
    ensures Wrap32(x) == Wrap32(y) <==> (x - y) % 0x1_0000_0000 == 0
  {
    var p := WrapTurns(x);
    var q := WrapTurns(y);
    assert x - y == (p - q) * 0x1_0000_0000 + (Wrap32(x) - Wrap32(y));
    if (x - y) % 0x1_0000_0000 == 0 {
      var d := (x - y) / 0x1_0000_0000;
      assert x - y == d * 0x1_0000_0000;
      assert (d - (p - q)) * 0x1_0000_0000 == Wrap32(x) - Wrap32(y);
    }
  }

  // ---------------------------------------------------------------- the state

  /** A handle names a slot, the generation it had, and the map's epoch. */
  datatype Handle = Handle(slot: int, gen: int, ep: int)

  /** One stay in the map: the slot, and how many stays that slot had seen end before. */
  datatype Ticket = Ticket(slot: int, stay: nat)

  /**
   The fields of the map, and the bookkeeping: the chain of free slots, how often each slot has
   been vacated, the generation each started from (whatever memory held), and what was inserted
   under each ticket.
   */
  datatype Map<V> = Map(vals: seq<V>, slots: seq<int>, ent: seq<Entry>, cap: int, n: int, cursor: int, holeHead: int,
                        holes: seq<int>, vacated: seq<nat>, base: seq<int>, log: map<Ticket, V>)

  predicate Sized<V>(m: Map<V>) {
    && |m.vals| == |m.slots| == |m.ent| == |m.vacated| == |m.base| == m.cap && 8 <= m.cap < 0x8000_0000
    && 0 <= m.n <= m.cursor <= m.cap
    && forall s | 0 <= s < m.cap :: EntryOk(m.ent[s])
  }

  /** Slot `s` holds a live entry: its word and the dense array point at each other. */
  predicate Occupied<V>(m: Map<V>, s: int) {
    && |m.vals| == |m.slots| == |m.ent| == m.cap && 0 <= m.n <= m.cap && 0 <= s < m.cap
    && 1 <= m.ent[s].low <= m.n && m.slots[m.ent[s].low - 1] == s
  }

  ghost predicate DenseOk<V>(m: Map<V>)
    requires Sized(m)
  {
    && (forall i | 0 <= i < m.n :: 0 <= m.slots[i] < m.cursor)
    && forall i {:trigger m.ent[m.slots[i]]} | 0 <= i < m.n :: m.ent[m.slots[i]].low == i + 1
  }

  /** The free list: each hole's word holds its successor, encoded relative to the capacity. */
  ghost predicate HolesOk<V>(m: Map<V>)
    requires Sized(m)
  {
    && m.holeHead == At(m.holes, 0) && NoDup(m.holes)
    && (forall k | 0 <= k < |m.holes| :: 0 <= m.holes[k] < m.cursor)
    && forall k {:trigger m.ent[m.holes[k]]} | 0 <= k < |m.holes| ::
      m.ent[m.holes[k]].low == At(m.holes, k + 1) + m.cap + 2
  }

  /** Below the cursor every slot is a hole or occupied, and there is room for exactly that. */
  ghost predicate PartitionOk<V>(m: Map<V>)
    requires Sized(m)
  {
    && m.n + |m.holes| == m.cursor
    && forall s {:trigger Occupied(m, s)} | 0 <= s < m.cursor :: Occupied(m, s) || s in m.holes
  }

  /** Generations count the times a slot was vacated, modulo 2^32. */
  ghost predicate GensOk<V>(m: Map<V>)
    requires Sized(m)
  {
    && (forall s {:trigger m.base[s]} | 0 <= s < m.cap :: m.ent[s].gen == Wrap32(m.base[s] + m.vacated[s]))
    && forall s {:trigger m.vacated[s]} | m.cursor <= s < m.cap :: m.vacated[s] == 0
  }

  ghost predicate TicketOk<V>(m: Map<V>, t: Ticket)
    requires Sized(m)
  {
    && 0 <= t.slot < m.cursor && t.stay <= m.vacated[t.slot]
    && (t.stay == m.vacated[t.slot] ==> Occupied(m, t.slot))
  }

  ghost predicate LogOk<V>(m: Map<V>)
    requires Sized(m)
  {
    && (forall t {:trigger TicketOk(m, t)} | t in m.log :: TicketOk(m, t))
    && (forall i {:trigger Logged(m, i)} | 0 <= i < m.n :: Logged(m, i))
  }

  /** Dense entry `i` is what was inserted in its slot's current stay. */
  ghost predicate Logged<V>(m: Map<V>, i: int)
    requires Sized(m) && 0 <= i < m.n
  {
    var s := m.slots[i];
    0 <= s < m.cap && Ticket(s, m.vacated[s]) in m.log && m.log[Ticket(s, m.vacated[s])] == m.vals[i]
  }

  ghost predicate MapInv<V>(m: Map<V>) {
    Sized(m) && DenseOk(m) && HolesOk(m) && PartitionOk(m) && GensOk(m) && LogOk(m)
  }

  // ---------------------------------------------------------------- looking up

  predicate PFree<V>(m: Map<V>, e: Entry) {
    e.low == 0 || e.low > m.cap
  }

  /** `pLive`: the word in the slot is not free and has the handle's generation. */
  predicate PLive<V>(m: Map<V>, epoch: int, h: Handle)
    requires |m.ent| == m.cap
  {
    PEp(h.ep) == PEp(epoch) && 0 <= h.slot < m.cap && !PFree(m, m.ent[h.slot]) && m.ent[h.slot].gen == h.gen
  }

  /** A hole's word is never mistaken for a live one. */
  lemma {:induction false} HoleIsFree<V>(m: Map<V>, s: int)
    requires MapInv(m) && s in m.holes
    ensures PFree(m, m.ent[s]) && !Occupied(m, s)
  {
    var k :| 0 <= k < |m.holes| && m.holes[k] == s;
    assert m.ent[m.holes[k]].low == At(m.holes, k + 1) + m.cap + 2;
    assert k + 1 < |m.holes| ==> 0 <= m.holes[k + 1] < m.cursor;
  }

  /** Below the cursor a slot's word reads as live exactly when the slot is occupied. */
  lemma {:induction false} OccupiedIff<V>(m: Map<V>, s: int)
    requires MapInv(m) && 0 <= s < m.cursor
    ensures Occupied(m, s) <==> !PFree(m, m.ent[s])
  {
    assert Occupied(m, s) || s in m.holes;
    if s in m.holes {
      HoleIsFree(m, s);
    }
  }

  /** The handle that went with a ticket. */
  function TicketHandle<V>(m: Map<V>, epoch: int, t: Ticket): Handle
    requires |m.base| == m.cap && 0 <= t.slot < m.cap
  {
    Handle(t.slot, Wrap32(m.base[t.slot] + t.stay), PEp(epoch))
  }

  /**
   An issued handle validates exactly when its slot is occupied and the number of times the slot
   was vacated since is a multiple of 2^32.
   */
  lemma {:induction false} ValidatesIff<V>(m: Map<V>, epoch: int, t: Ticket)
    requires MapInv(m) && t in m.log
    ensures 0 <= t.slot < m.cap && t.stay <= m.vacated[t.slot]
    ensures PLive(m, epoch, TicketHandle(m, epoch, t)) <==>
            Occupied(m, t.slot) && (m.vacated[t.slot] - t.stay) % 0x1_0000_0000 == 0
  {
    assert TicketOk(m, t);
    OccupiedIff(m, t.slot);
    assert m.ent[t.slot].gen == Wrap32(m.base[t.slot] + m.vacated[t.slot]);
    WrapSame(m.base[t.slot] + m.vacated[t.slot], m.base[t.slot] + t.stay);
  }

  /** The entry made under a ticket is still in the map. */
  predicate Present<V>(m: Map<V>, t: Ticket)
    requires |m.vacated| == m.cap
  {
    Occupied(m, t.slot) && m.vacated[t.slot] == t.stay
  }

  /**
   No handle ever rebinds: with fewer than 2^32 vacations of its slot since it was issued, a handle
   validates exactly while its own entry is present, and then leads to the value inserted with it.
   */
  lemma {:induction false} HandleNeverRebinds<V>(m: Map<V>, epoch: int, t: Ticket)
    requires MapInv(m) && t in m.log
    requires 0 <= t.slot < m.cap ==> m.vacated[t.slot] - t.stay < 0x1_0000_0000
    ensures 0 <= t.slot < m.cap
    ensures PLive(m, epoch, TicketHandle(m, epoch, t)) <==> Present(m, t)
    ensures Present(m, t) ==> m.vals[m.ent[t.slot].low - 1] == m.log[t]
  {
    ValidatesIff(m, epoch, t);
    if Occupied(m, t.slot) {
      assert m.slots[m.ent[t.slot].low - 1] == t.slot && Logged(m, m.ent[t.slot].low - 1);
    }
  }

  // ---------------------------------------------------------------- insertion

  /** `grow`: half as much again, the new part zeroed; only done when there are no holes. */
  function Grow<V>(m: Map<V>, zero: V): Map<V>
    requires m.cap >= 0
  {
    var more := m.cap / 2;
    m.(vals := Widened(m.vals, more, zero), slots := Widened(m.slots, more, 0),
       ent := Widened(m.ent, more, Entry(0, 0)),
       cap := m.cap + more, vacated := Widened(m.vacated, more, 0), base := Widened(m.base, more, 0))
  }

  lemma {:induction false} GrowKeepsInv<V>(m: Map<V>, zero: V)
    requires MapInv(m) && m.holeHead < 0 && m.cap + m.cap / 2 < 0x8000_0000
    ensures MapInv(Grow(m, zero)) && Grow(m, zero).cursor < Grow(m, zero).cap
  {
    var w := Grow(m, zero);
    assert m.holes == [];
    GrowSized(m, zero, w);
    forall i | 0 <= i < w.n ensures Logged(w, i) { assert Logged(m, i); }
    forall t | t in w.log ensures TicketOk(w, t) {
      assert TicketOk(m, t);
    }
  }

  lemma {:induction false} GrowSized<V>(m: Map<V>, zero: V, w: Map<V>)
    requires MapInv(m) && m.holes == [] && m.cap + m.cap / 2 < 0x8000_0000 && w == Grow(m, zero)
    ensures Sized(w) && DenseOk(w) && HolesOk(w) && PartitionOk(w) && GensOk(w)
    ensures forall s | 0 <= s < m.cursor :: Occupied(m, s) ==> Occupied(w, s)
  {
    forall s | 0 <= s < w.cap ensures w.ent[s] == if s < m.cap then m.ent[s] else Entry(0, 0) {}
    forall i | 0 <= i < w.n ensures w.slots[i] == m.slots[i] && w.ent[w.slots[i]].low == i + 1 {
      assert m.ent[m.slots[i]].low == i + 1;
    }
    forall s | 0 <= s < m.cursor ensures Occupied(m, s) && Occupied(w, s) {
      assert Occupied(m, s) || s in m.holes;
    }
    forall s | 0 <= s < w.cap ensures w.ent[s].gen == Wrap32(w.base[s] + w.vacated[s]) {
      assert s < m.cap ==> m.base[s] == w.base[s];
    }
  }

  /** A slot that has been taken off the hole chain or off the cursor and not filled yet. */
  ghost predicate Ready<V>(m: Map<V>, s: int) {
    && Sized(m) && DenseOk(m) && HolesOk(m) && GensOk(m) && LogOk(m)
    && m.n < m.cap && 0 <= s < m.cursor && s !in m.holes && !Occupied(m, s)
    && m.n + 1 + |m.holes| == m.cursor
    && (forall o {:trigger Occupied(m, o)} | 0 <= o < m.cursor && o != s :: Occupied(m, o) || o in m.holes)
    && Ticket(s, m.vacated[s]) !in m.log
  }

  ghost function PopHole<V>(m: Map<V>): Map<V>
    requires m.holes != [] && 0 <= m.holeHead < |m.ent|
  {
    m.(holeHead := m.ent[m.holeHead].low - m.cap - 2, holes := m.holes[1..])
  }

  lemma {:induction false} PopHoleReady<V>(m: Map<V>)
    requires MapInv(m) && m.holeHead >= 0
    ensures m.holes != [] && 0 <= m.holeHead < |m.ent| && Ready(PopHole(m), m.holeHead)
  {
    var w, s := PopHole(m), m.holeHead;
    assert m.ent[m.holes[0]].low == At(m.holes, 1) + m.cap + 2;
    HoleIsFree(m, s);
    PopHoleChain(m, w);
    forall o | 0 <= o < w.cursor && o != s ensures Occupied(w, o) || o in w.holes {
      assert Occupied(m, o) || o in m.holes;
    }
    PopHoleLog(m, w);
    DenseCount(m);
  }

  lemma {:induction false} PopHoleChain<V>(m: Map<V>, w: Map<V>)
    requires MapInv(m) && m.holes != [] && 0 <= m.holeHead < |m.ent| && w == PopHole(m)
    ensures Sized(w) && DenseOk(w) && HolesOk(w) && GensOk(w) && m.holeHead !in w.holes
  {
    PopHoleLinks(m, w);
    forall i | 0 <= i < w.n ensures w.ent[w.slots[i]].low == i + 1 {
      assert m.ent[m.slots[i]].low == i + 1;
    }
    forall s | 0 <= s < w.cap ensures w.ent[s].gen == Wrap32(w.base[s] + w.vacated[s]) {
      assert m.base[s] == w.base[s];
    }
  }

  lemma {:induction false} PopHoleLinks<V>(m: Map<V>, w: Map<V>)
    requires Sized(m) && HolesOk(m) && m.holes != [] && 0 <= m.holeHead < |m.ent| && w == PopHole(m)
    ensures Sized(w) && HolesOk(w) && m.holeHead !in w.holes
  {
    TailOfChain(m.holes);
    assert m.ent[m.holes[0]].low == At(m.holes, 1) + m.cap + 2;
    forall k | 0 <= k < |w.holes|
      ensures 0 <= w.holes[k] < w.cursor && w.ent[w.holes[k]].low == At(w.holes, k + 1) + w.cap + 2 {
      assert w.holes[k] == m.holes[k + 1];
      assert m.ent[m.holes[k + 1]].low == At(m.holes, k + 2) + m.cap + 2;
    }
  }

  lemma {:induction false} PopHoleLog<V>(m: Map<V>, w: Map<V>)
    requires MapInv(m) && m.holes != [] && 0 <= m.holeHead < |m.ent| && w == PopHole(m) && Sized(w)
    requires !Occupied(m, m.holeHead)
    ensures LogOk(w) && Ticket(m.holeHead, m.vacated[m.holeHead]) !in w.log
  {
    forall t | t in w.log ensures TicketOk(w, t) { assert TicketOk(m, t); }
    forall i | 0 <= i < w.n ensures Logged(w, i) { assert Logged(m, i); }
    forall t | t in m.log && t.slot == m.holeHead ensures t.stay != m.vacated[m.holeHead] { assert TicketOk(m, t); }
  }

  lemma {:induction false} DenseCount<V>(m: Map<V>)
    requires MapInv(m) && m.holes != []
    ensures m.n < m.cap
  {
    assert 0 <= m.holes[0] < m.cursor;
  }

  ghost function StepCursor<V>(m: Map<V>): Map<V> {
    m.(cursor := m.cursor + 1)
  }

  lemma {:induction false} StepCursorReady<V>(m: Map<V>)
    requires MapInv(m) && m.holeHead < 0 && m.cursor < m.cap
    ensures Ready(StepCursor(m), m.cursor)
  {
    var w, s := StepCursor(m), m.cursor;
    assert m.holes == [];
    assert 1 <= m.ent[s].low <= m.n ==> 0 <= m.slots[m.ent[s].low - 1] < m.cursor;
    forall o | 0 <= o < w.cursor && o != s ensures Occupied(w, o) || o in w.holes {
      assert Occupied(m, o) || o in m.holes;
    }
    forall t | t in w.log ensures TicketOk(w, t) && t.slot != s { assert TicketOk(m, t); }
    forall i | 0 <= i < w.n ensures Logged(w, i) { assert Logged(m, i); }
  }

  /** The writes of `insert`. */
  ghost function Put<V>(m: Map<V>, s: int, v: V): Map<V>
    requires |m.vals| == |m.slots| == |m.ent| == |m.vacated| == m.cap && 0 <= s < m.cap && 0 <= m.n < m.cap
  {
    m.(ent := m.ent[s := Entry(m.ent[s].gen, m.n + 1)], slots := m.slots[m.n := s], vals := m.vals[m.n := v],
       n := m.n + 1, log := m.log[Ticket(s, m.vacated[s]) := v])
  }

  lemma {:induction false} PutKeepsInv<V>(m: Map<V>, s: int, v: V)
    requires Ready(m, s)
    ensures MapInv(Put(m, s, v)) && Present(Put(m, s, v), Ticket(s, m.vacated[s]))
    ensures Put(m, s, v).ent[s].gen == m.ent[s].gen
  {
    var w := Put(m, s, v);
    PutDense(m, s, v);
    PutHoles(m, s, v);
    forall o | 0 <= o < w.cursor ensures Occupied(w, o) || o in w.holes {
      if o != s {
        assert Occupied(m, o) || o in m.holes;
      }
    }
    forall o | 0 <= o < w.cap ensures w.ent[o].gen == Wrap32(w.base[o] + w.vacated[o]) {
      assert m.ent[o].gen == Wrap32(m.base[o] + m.vacated[o]);
    }
    PutLog(m, s, v);
  }

  lemma {:induction false} PutDense<V>(m: Map<V>, s: int, v: V)
    requires Ready(m, s)
    ensures Sized(Put(m, s, v)) && DenseOk(Put(m, s, v))
  {
    var w := Put(m, s, v);
    forall i | 0 <= i < w.n ensures 0 <= w.slots[i] < w.cursor && w.ent[w.slots[i]].low == i + 1 {
      if i < m.n {
        assert m.slots[i] != s by {
          assert m.ent[m.slots[i]].low == i + 1;
        }
      }
    }
  }

  lemma {:induction false} PutHoles<V>(m: Map<V>, s: int, v: V)
    requires Ready(m, s) && Sized(Put(m, s, v))
    ensures HolesOk(Put(m, s, v))
  {
    var w := Put(m, s, v);
    forall k | 0 <= k < |w.holes|
      ensures 0 <= w.holes[k] < w.cursor && w.ent[w.holes[k]].low == At(w.holes, k + 1) + w.cap + 2 {
      assert m.holes[k] in m.holes;
    }
  }

  lemma {:induction false} PutLog<V>(m: Map<V>, s: int, v: V)
    requires Ready(m, s) && Sized(Put(m, s, v)) && DenseOk(Put(m, s, v))
    ensures LogOk(Put(m, s, v))
  {
    var w := Put(m, s, v);
    forall t | t in w.log ensures TicketOk(w, t) {
      if t != Ticket(s, m.vacated[s]) {
        assert TicketOk(m, t);
      }
    }
    forall i | 0 <= i < w.n ensures Logged(w, i) {
      if i < m.n {
        assert Logged(m, i) && w.ent[w.slots[i]].low == i + 1;
        assert m.slots[i] != s;
      }
    }
  }

  // ---------------------------------------------------------------- removal

  /** The writes of `remove` for a live slot: the last entry moves into the gap, the slot joins the holes. */
  ghost function Cut<V>(m: Map<V>, s: int): Map<V>
    requires Sized(m) && Occupied(m, s)
  {
    var d, last := m.ent[s].low - 1, m.n - 1;
    var moved := m.slots[last];
    var ent1 := if d != last && 0 <= moved < m.cap then m.ent[moved := Entry(m.ent[moved].gen, d + 1)] else m.ent;
    var low := m.holeHead + m.cap + 2;
    m.(vals := if d != last then m.vals[d := m.vals[last]] else m.vals,
       slots := if d != last then m.slots[d := moved] else m.slots,
       ent := ent1[s := Entry(Wrap32(m.ent[s].gen + 1), low)],
       n := last, holeHead := s, holes := [s] + m.holes, vacated := m.vacated[s := m.vacated[s] + 1])
  }

  /** The last entry moved into the gap at `d`, its word redirected. */
  ghost function LastMoved<V>(m: Map<V>, d: int): Map<V>
    requires |m.vals| == |m.slots| == |m.ent| == m.cap && 0 <= d < m.n <= m.cap && 0 <= m.slots[m.n - 1] < m.cap
  {
    var moved := m.slots[m.n - 1];
    m.(vals := m.vals[d := m.vals[m.n - 1]], slots := m.slots[d := moved],
       ent := m.ent[moved := Entry(m.ent[moved].gen, d + 1)])
  }

  /** Slot `s` freed: one entry less, its generation up, its word the old head of the free list. */
  ghost function CellFreed<V>(m: Map<V>, s: int): Map<V>
    requires 0 <= s < |m.ent| == |m.vacated|
  {
    m.(ent := m.ent[s := Entry(Wrap32(m.ent[s].gen + 1), m.holeHead + m.cap + 2)], n := m.n - 1,
       holeHead := s, holes := [s] + m.holes, vacated := m.vacated[s := m.vacated[s] + 1])
  }

  lemma {:induction false} CutInTwo<V>(m: Map<V>, s: int)
    requires Sized(m) && Occupied(m, s) && 0 <= m.slots[m.n - 1] < m.cap
    requires m.ent[s].low != m.n ==> m.slots[m.n - 1] != s
    ensures Cut(m, s) == CellFreed(if m.ent[s].low == m.n then m else LastMoved(m, m.ent[s].low - 1), s)
  {
  }

  /** The words after a removal, one by one. */
  lemma {:induction false} CutWords<V>(m: Map<V>, s: int)
    requires MapInv(m) && Occupied(m, s)
    ensures var w, d, moved := Cut(m, s), m.ent[s].low - 1, m.slots[m.n - 1];
            && -1 <= m.holeHead < m.cursor && 0 <= moved < m.cursor && (d != m.n - 1 <==> moved != s)
            && w.ent[s].low == m.holeHead + m.cap + 2 && w.ent[s].gen == Wrap32(m.ent[s].gen + 1) && EntryOk(w.ent[s])
            && (d != m.n - 1 ==>
                  w.ent[moved].low == d + 1 && w.ent[moved].gen == m.ent[moved].gen && EntryOk(w.ent[moved]))
            && forall o | 0 <= o < m.cap && o != s && (o != moved || d == m.n - 1) :: w.ent[o] == m.ent[o]
  {
    var d, last := m.ent[s].low - 1, m.n - 1;
    var moved := m.slots[last];
    assert m.ent[m.slots[last]].low == last + 1;
    assert m.holes != [] ==> 0 <= m.holes[0] < m.cursor;
  }

  lemma {:induction false} CutKeepsInv<V>(m: Map<V>, s: int)
    requires MapInv(m) && Occupied(m, s)
    ensures MapInv(Cut(m, s))
  {
    CutSized(m, s);
    CutDense(m, s);
    CutHoles(m, s);
    CutPartition(m, s);
    CutGens(m, s);
    CutLog(m, s);
  }

  lemma {:induction false} CutSized<V>(m: Map<V>, s: int)
    requires MapInv(m) && Occupied(m, s)
    ensures Sized(Cut(m, s)) && s < m.cursor
  {
    CutWords(m, s);
    var w := Cut(m, s);
    assert 0 <= m.slots[m.ent[s].low - 1] < m.cursor;
    forall o | 0 <= o < w.cap ensures EntryOk(w.ent[o]) {
    }
  }

  lemma {:induction false} CutDense<V>(m: Map<V>, s: int)
    requires MapInv(m) && Occupied(m, s) && Sized(Cut(m, s))
    ensures DenseOk(Cut(m, s))
  {
    CutWords(m, s);
    var w, d, moved := Cut(m, s), m.ent[s].low - 1, m.slots[m.n - 1];
    forall i | 0 <= i < w.n ensures 0 <= w.slots[i] < w.cursor && w.ent[w.slots[i]].low == i + 1 {
      if i != d {
        assert m.ent[m.slots[i]].low == i + 1;
        assert m.ent[m.slots[m.n - 1]].low == m.n;
      }
    }
  }

  lemma {:induction false} CutHoles<V>(m: Map<V>, s: int)
    requires MapInv(m) && Occupied(m, s) && Sized(Cut(m, s)) && s < m.cursor
    ensures HolesOk(Cut(m, s)) && s !in m.holes
  {
    CutWords(m, s);
    var w, moved := Cut(m, s), m.slots[m.n - 1];
    if s in m.holes {
      HoleIsFree(m, s);
    }
    assert Occupied(m, moved) by {
      assert m.ent[m.slots[m.n - 1]].low == m.n;
    }
    if moved in m.holes {
      HoleIsFree(m, moved);
    }
    forall k | 0 <= k < |w.holes|
      ensures 0 <= w.holes[k] < w.cursor && w.ent[w.holes[k]].low == At(w.holes, k + 1) + w.cap + 2 {
      if k > 0 {
        assert w.holes[k] == m.holes[k - 1] && m.holes[k - 1] in m.holes;
        assert m.ent[m.holes[k - 1]].low == At(m.holes, k) + m.cap + 2;
        assert At(w.holes, k + 1) == At(m.holes, k);
      }
    }
    assert NoDup(w.holes);
  }

  lemma {:induction false} CutPartition<V>(m: Map<V>, s: int)
    requires MapInv(m) && Occupied(m, s) && Sized(Cut(m, s)) && DenseOk(Cut(m, s))
    ensures PartitionOk(Cut(m, s))
  {
    CutWords(m, s);
    var w, d, moved := Cut(m, s), m.ent[s].low - 1, m.slots[m.n - 1];
    forall o | 0 <= o < w.cursor ensures Occupied(w, o) || o in w.holes {
      assert Occupied(m, o) || o in m.holes;
      if o in m.holes {
        assert w.holes[1..] == m.holes;
        assert o in w.holes;
      } else if o != s {
        var i := m.ent[o].low - 1;
        assert m.slots[i] == o;
        if o != moved {
          assert m.ent[m.slots[m.n - 1]].low == m.n;
          assert i != m.n - 1 && i != d;
        }
      }
    }
  }

  lemma {:induction false} CutGens<V>(m: Map<V>, s: int)
    requires MapInv(m) && Occupied(m, s) && Sized(Cut(m, s)) && s < m.cursor
    ensures GensOk(Cut(m, s))
  {
    CutWords(m, s);
    var w := Cut(m, s);
    forall o | 0 <= o < w.cap ensures w.ent[o].gen == Wrap32(w.base[o] + w.vacated[o]) {
      assert m.ent[o].gen == Wrap32(m.base[o] + m.vacated[o]);
      if o == s {
        WrapTwice(m.base[s] + m.vacated[s], 1);
      }
    }
  }

  lemma {:induction false} CutLog<V>(m: Map<V>, s: int)
    requires MapInv(m) && Occupied(m, s) && Sized(Cut(m, s)) && DenseOk(Cut(m, s)) && PartitionOk(Cut(m, s))
    requires s < m.cursor
    ensures LogOk(Cut(m, s))
  {
    CutWords(m, s);
    var w, d, moved := Cut(m, s), m.ent[s].low - 1, m.slots[m.n - 1];
    forall t | t in w.log ensures TicketOk(w, t) {
      assert TicketOk(m, t);
      if t.slot != s && t.stay == m.vacated[t.slot] {
        CutOthersStay(m, s, t.slot);
      }
    }
    forall i | 0 <= i < w.n ensures Logged(w, i) {
      var o := if i == d then m.n - 1 else i;
      assert w.slots[i] == m.slots[o] && m.ent[m.slots[o]].low == o + 1;
      assert m.slots[o] != s && Logged(m, o);
    }
  }

  /** The other occupied slots stay occupied. */
  lemma {:induction false} CutOthersStay<V>(m: Map<V>, s: int, o: int)
    requires MapInv(m) && Occupied(m, s) && Sized(Cut(m, s)) && o != s && 0 <= o < m.cap
    ensures Occupied(Cut(m, s), o) <==> Occupied(m, o)
  {
    CutWords(m, s);
    var w, d, moved := Cut(m, s), m.ent[s].low - 1, m.slots[m.n - 1];
    assert m.ent[m.slots[m.n - 1]].low == m.n;
    if Occupied(m, o) {
      assert m.slots[m.ent[o].low - 1] == o;
    }
    if Occupied(w, o) && o != moved {
      assert w.slots[w.ent[o].low - 1] == o;
    }
  }

  // ---------------------------------------------------------------- the finite map behind it all

  function HandleOfSlot<V>(m: Map<V>, epoch: int, s: int): Handle
    requires 0 <= s < |m.ent|
  {
    Handle(s, m.ent[s].gen, PEp(epoch))
  }

  /** The map a slot map stands for: from the handles of its entries to their values. */
  ghost function Contents<V>(m: Map<V>, epoch: int): map<Handle, V> {
    map s | 0 <= s < m.cursor && Occupied(m, s) :: HandleOfSlot(m, epoch, s) := m.vals[m.ent[s].low - 1]
  }

  lemma {:induction false} InContents<V>(m: Map<V>, epoch: int, h: Handle)
    ensures h in Contents(m, epoch) <==>
            0 <= h.slot < m.cursor && Occupied(m, h.slot) && h == HandleOfSlot(m, epoch, h.slot)
    ensures h in Contents(m, epoch) ==> Contents(m, epoch)[h] == m.vals[m.ent[h.slot].low - 1]
  {
    if 0 <= h.slot < m.cursor && Occupied(m, h.slot) && h == HandleOfSlot(m, epoch, h.slot) {
      assert HandleOfSlot(m, epoch, h.slot) in Contents(m, epoch);
    }
  }

  /** `get` on a state. */
  function Get<V>(m: Map<V>, epoch: int, h: Handle): Option<V>
    requires Sized(m)
  {
    if PLive(m, epoch, h) then Some(m.vals[m.ent[h.slot].low - 1]) else None
  }

  /** A handle to a slot that has been handed out is found exactly when the finite map has it. */
  lemma {:induction false} GetRefines<V>(m: Map<V>, epoch: int, h: Handle)
    requires MapInv(m) && h.slot < m.cursor && h.ep == PEp(h.ep)
    ensures Get(m, epoch, h) == if h in Contents(m, epoch) then Some(Contents(m, epoch)[h]) else None
  {
    InContents(m, epoch, h);
    if 0 <= h.slot && h.ep == PEp(epoch) {
      OccupiedIff(m, h.slot);
      assert h.slot < m.cap && (Occupied(m, h.slot) && m.ent[h.slot].gen == h.gen <==> h in Contents(m, epoch)) by {
        if Occupied(m, h.slot) && m.ent[h.slot].gen == h.gen {
          assert HandleOfSlot(m, epoch, h.slot) == h;
        }
      }
    }
  }

  /** Slot `o` holds the same entry, or none, in both states. */
  ghost predicate SameAt<V>(m: Map<V>, w: Map<V>, o: int) {
    && (Occupied(w, o) <==> Occupied(m, o))
    && (Occupied(m, o) ==> w.ent[o].gen == m.ent[o].gen && w.vals[w.ent[o].low - 1] == m.vals[m.ent[o].low - 1])
  }

  /** Two states that agree on all slots but `s` stand for maps that agree on all other handles. */
  lemma {:induction false} ContentsElsewhere<V>(m: Map<V>, w: Map<V>, epoch: int, s: int, h: Handle)
    requires w.cursor == m.cursor
    requires forall o | 0 <= o < m.cursor && o != s :: SameAt(m, w, o)
    requires h.slot != s
    ensures h in Contents(w, epoch) <==> h in Contents(m, epoch)
    ensures h in Contents(m, epoch) ==> Contents(w, epoch)[h] == Contents(m, epoch)[h]
  {
    InContents(m, epoch, h);
    InContents(w, epoch, h);
    if 0 <= h.slot < m.cursor {
      assert SameAt(m, w, h.slot);
    }
  }

  lemma {:induction false} ContentsSame<V>(m: Map<V>, w: Map<V>, epoch: int)
    requires w.cursor == m.cursor
    requires forall o | 0 <= o < m.cursor :: SameAt(m, w, o)
    ensures Contents(w, epoch) == Contents(m, epoch)
  {
    forall h
      ensures h in Contents(w, epoch) <==> h in Contents(m, epoch)
      ensures h in Contents(m, epoch) ==> Contents(w, epoch)[h] == Contents(m, epoch)[h]
    {
      ContentsElsewhere(m, w, epoch, h.slot + 1, h);
    }
  }

  /** Growing changes no entry. */
  lemma {:induction false} GrowRefines<V>(m: Map<V>, zero: V, epoch: int)
    requires MapInv(m) && m.holeHead < 0 && m.cap + m.cap / 2 < 0x8000_0000
    ensures Contents(Grow(m, zero), epoch) == Contents(m, epoch)
  {
    GrowKeepsInv(m, zero);
    var w := Grow(m, zero);
    forall o | 0 <= o < m.cursor ensures SameAt(m, w, o) {
      OccupiedIff(m, o);
    }
    ContentsSame(m, w, epoch);
  }

  /** Inserting adds exactly one entry, under a handle the map did not have. */
  lemma {:induction false} PutRefines<V>(m: Map<V>, s: int, v: V, epoch: int)
    requires Ready(m, s)
    ensures HandleOfSlot(m, epoch, s) !in Contents(m, epoch)
    ensures Contents(Put(m, s, v), epoch) == Contents(m, epoch)[HandleOfSlot(m, epoch, s) := v]
  {
    PutKeepsInv(m, s, v);
    PutSame(m, s, v);
    ContentsPlus(m, Put(m, s, v), epoch, s);
  }

  lemma {:induction false} PutSame<V>(m: Map<V>, s: int, v: V)
    requires Ready(m, s) && Sized(Put(m, s, v))
    ensures forall o | 0 <= o < m.cursor && o != s :: SameAt(m, Put(m, s, v), o)
  {
  }

  lemma {:induction false} ContentsPlus<V>(m: Map<V>, w: Map<V>, epoch: int, s: int)
    requires w.cursor == m.cursor && 0 <= s < m.cursor && s < |m.ent|
    requires forall o | 0 <= o < m.cursor && o != s :: SameAt(m, w, o)
    requires !Occupied(m, s) && Occupied(w, s) && w.ent[s].gen == m.ent[s].gen
    ensures HandleOfSlot(m, epoch, s) !in Contents(m, epoch)
    ensures Contents(w, epoch) == Contents(m, epoch)[HandleOfSlot(m, epoch, s) := w.vals[w.ent[s].low - 1]]
  {
    InContents(m, epoch, HandleOfSlot(m, epoch, s));
    forall h
      ensures h in Contents(w, epoch) <==> h in Contents(m, epoch) || h == HandleOfSlot(m, epoch, s)
      ensures h in Contents(w, epoch) && h != HandleOfSlot(m, epoch, s) ==>
                Contents(w, epoch)[h] == Contents(m, epoch)[h]
    {
      PlusAt(m, w, epoch, s, h);
    }
    PlusAt(m, w, epoch, s, HandleOfSlot(m, epoch, s));
  }

  lemma {:induction false} PlusAt<V>(m: Map<V>, w: Map<V>, epoch: int, s: int, h: Handle)
    requires w.cursor == m.cursor && 0 <= s < m.cursor && s < |m.ent|
    requires forall o | 0 <= o < m.cursor && o != s :: SameAt(m, w, o)
    requires !Occupied(m, s) && Occupied(w, s) && w.ent[s].gen == m.ent[s].gen
    ensures h in Contents(w, epoch) <==> h in Contents(m, epoch) || h == HandleOfSlot(m, epoch, s)
    ensures h == HandleOfSlot(m, epoch, s) ==> Contents(w, epoch)[h] == w.vals[w.ent[s].low - 1]
    ensures h != HandleOfSlot(m, epoch, s) && h in Contents(m, epoch) ==> Contents(w, epoch)[h] == Contents(m, epoch)[h]
  {
    InContents(m, epoch, h);
    InContents(w, epoch, h);
    if h.slot != s {
      ContentsElsewhere(m, w, epoch, s, h);
    }
  }

  /** Removing takes out exactly one entry. */
  lemma {:induction false} CutRefines<V>(m: Map<V>, s: int, epoch: int)
    requires MapInv(m) && Occupied(m, s)
    ensures Contents(Cut(m, s), epoch) == Contents(m, epoch) - {HandleOfSlot(m, epoch, s)}
  {
    CutKeepsInv(m, s);
    CutSized(m, s);
    HoleIsFree(Cut(m, s), s);
    forall o | 0 <= o < m.cursor && o != s ensures SameAt(m, Cut(m, s), o) {
      CutOthersStay(m, s, o);
      CutKeepsValue(m, s, o);
    }
    ContentsMinus(m, Cut(m, s), epoch, s);
  }

  lemma {:induction false} ContentsMinus<V>(m: Map<V>, w: Map<V>, epoch: int, s: int)
    requires w.cursor == m.cursor && 0 <= s < m.cursor && s < |m.ent|
    requires forall o | 0 <= o < m.cursor && o != s :: SameAt(m, w, o)
    requires Occupied(m, s) && !Occupied(w, s)
    ensures Contents(w, epoch) == Contents(m, epoch) - {HandleOfSlot(m, epoch, s)}
  {
    forall h
      ensures h in Contents(w, epoch) <==> h in Contents(m, epoch) - {HandleOfSlot(m, epoch, s)}
      ensures h in Contents(w, epoch) ==> Contents(w, epoch)[h] == Contents(m, epoch)[h]
    {
      if h.slot == s {
        InContents(m, epoch, h);
        InContents(w, epoch, h);
      } else {
        ContentsElsewhere(m, w, epoch, s, h);
      }
    }
  }

  lemma {:induction false} CutKeepsValue<V>(m: Map<V>, s: int, o: int)
    requires MapInv(m) && Occupied(m, s) && o != s && 0 <= o < m.cap
    ensures Cut(m, s).ent[o].gen == m.ent[o].gen
    ensures Occupied(m, o) ==>
              1 <= Cut(m, s).ent[o].low <= |Cut(m, s).vals|
                && Cut(m, s).vals[Cut(m, s).ent[o].low - 1] == m.vals[m.ent[o].low - 1]
  {
    CutWords(m, s);
    var moved := m.slots[m.n - 1];
    assert m.ent[m.slots[m.n - 1]].low == m.n;
    if Occupied(m, o) {
      assert m.slots[m.ent[o].low - 1] == o && m.slots[m.ent[s].low - 1] == s;
    }
  }

  /** What `remove` finds and leaves when the handle validates. */
  lemma {:induction false} RemoveRefines<V>(m: Map<V>, epoch: int, h: Handle)
    requires MapInv(m) && h.slot < m.cursor && h.ep == PEp(h.ep) && PLive(m, epoch, h)
    ensures Occupied(m, h.slot) && 0 <= m.slots[m.n - 1] < m.cap && -1 <= m.holeHead < m.cap
    ensures m.ent[h.slot].low != m.n ==> m.slots[m.n - 1] != h.slot
    ensures MapInv(Cut(m, h.slot)) && h in Contents(m, epoch)
    ensures Contents(Cut(m, h.slot), epoch) == Contents(m, epoch) - {h}
  {
    GetRefines(m, epoch, h);
    OccupiedIff(m, h.slot);
    CutWords(m, h.slot);
    CutKeepsInv(m, h.slot);
    CutRefines(m, h.slot, epoch);
  }

  // ---------------------------------------------------------------- insertion as a whole

  ghost function FreeSlot<V>(m: Map<V>): int {
    if m.holeHead >= 0 then m.holeHead else m.cursor
  }

  /** There is a free slot, and a dense cell for it. */
  ghost predicate HasRoom<V>(m: Map<V>) {
    && |m.vals| == |m.slots| == |m.ent| == |m.vacated| == |m.base| == m.cap && 0 <= m.n < m.cap
    && if m.holeHead >= 0 then m.holes != [] && m.holeHead < m.cap else 0 <= m.cursor < m.cap
  }

  /** The state with the next slot taken: the first hole, or the one at the cursor. */
  ghost function Opened<V>(m: Map<V>): Map<V>
    requires HasRoom(m)
  {
    if m.holeHead >= 0 then PopHole(m) else StepCursor(m)
  }

  lemma {:induction false} OpenedReady<V>(m: Map<V>)
    requires MapInv(m) && (m.holeHead >= 0 || m.cursor < m.cap)
    ensures HasRoom(m) && Ready(Opened(m), FreeSlot(m))
  {
    if m.holeHead >= 0 {
      PopHoleReady(m);
    } else {
      StepCursorReady(m);
    }
  }

  lemma {:induction false} OpenedRefines<V>(m: Map<V>, epoch: int)
    requires MapInv(m) && (m.holeHead >= 0 || m.cursor < m.cap)
    ensures HasRoom(m) && Ready(Opened(m), FreeSlot(m))
    ensures Contents(Opened(m), epoch) == Contents(m, epoch)
  {
    OpenedReady(m);
    forall h
      ensures h in Contents(Opened(m), epoch) <==> h in Contents(m, epoch)
      ensures h in Contents(m, epoch) ==> Contents(Opened(m), epoch)[h] == Contents(m, epoch)[h]
    {
      OpenedAt(m, Opened(m), epoch, h);
    }
  }

  lemma {:induction false} OpenedAt<V>(m: Map<V>, w: Map<V>, epoch: int, h: Handle)
    requires w.cursor - 1 <= FreeSlot(m) ==> !Occupied(w, FreeSlot(m))
    requires w == m.(holeHead := w.holeHead, holes := w.holes, cursor := w.cursor)
    requires w.cursor == m.cursor || (w.cursor == m.cursor + 1 && FreeSlot(m) == m.cursor)
    ensures h in Contents(w, epoch) <==> h in Contents(m, epoch)
    ensures h in Contents(m, epoch) ==> Contents(w, epoch)[h] == Contents(m, epoch)[h]
  {
    InContents(m, epoch, h);
    InContents(w, epoch, h);
  }

  /** The state after `insert` where there is room. */
  ghost function InsertIn<V>(m: Map<V>, v: V): Map<V>
    requires HasRoom(m)
  {
    Put(Opened(m), FreeSlot(m), v)
  }

  ghost function InsertHandle<V>(m: Map<V>, epoch: int): Handle
    requires HasRoom(m)
  {
    HandleOfSlot(Opened(m), epoch, FreeSlot(m))
  }

  lemma {:induction false} InsertRefines<V>(m: Map<V>, v: V, epoch: int)
    requires MapInv(m) && (m.holeHead >= 0 || m.cursor < m.cap)
    ensures HasRoom(m) && MapInv(InsertIn(m, v))
    ensures InsertHandle(m, epoch) !in Contents(m, epoch)
    ensures Contents(InsertIn(m, v), epoch) == Contents(m, epoch)[InsertHandle(m, epoch) := v]
  {
    OpenedRefines(m, epoch);
    PutRefines(Opened(m), FreeSlot(m), v, epoch);
    PutKeepsInv(Opened(m), FreeSlot(m), v);
  }

  /** The ticket of the entry `insert` makes. */
  ghost function NewTicket<V>(m: Map<V>): Ticket
    requires HasRoom(m) && 0 <= FreeSlot(m) < m.cap
  {
    Ticket(FreeSlot(m), m.vacated[FreeSlot(m)])
  }

  /** The handle issued is the one that goes with the new ticket, and its entry is present. */
  lemma {:induction false} InsertIssuesTicket<V>(m: Map<V>, v: V, epoch: int)
    requires MapInv(m) && (m.holeHead >= 0 || m.cursor < m.cap)
    ensures HasRoom(m) && 0 <= FreeSlot(m) < m.cap && MapInv(InsertIn(m, v))
    ensures Issued(InsertIn(m, v), epoch, InsertHandle(m, epoch), NewTicket(m), v) && NewTicket(m) !in m.log
  {
    OpenedReady(m);
    PutKeepsInv(Opened(m), FreeSlot(m), v);
    PutIssues(Opened(m), FreeSlot(m), v, epoch);
  }

  lemma {:induction false} PutIssues<V>(m: Map<V>, s: int, v: V, epoch: int)
    requires Ready(m, s) && Present(Put(m, s, v), Ticket(s, m.vacated[s]))
    ensures Issued(Put(m, s, v), epoch, HandleOfSlot(m, epoch, s), Ticket(s, m.vacated[s]), v)
    ensures Ticket(s, m.vacated[s]) !in m.log
  {
    assert m.ent[s].gen == Wrap32(m.base[s] + m.vacated[s]);
  }

  /** The handle belongs to the ticket, whose entry is in the map with the value it was made for. */
  ghost predicate Issued<V>(m: Map<V>, epoch: int, h: Handle, t: Ticket, v: V) {
    && |m.base| == |m.vacated| == m.cap && 0 <= t.slot < m.cap
    && t in m.log && m.log[t] == v && Present(m, t) && h == TicketHandle(m, epoch, t)
  }

  predicate IsFull<V>(m: Map<V>) {
    m.holeHead < 0 && m.cursor >= m.cap
  }

  /** The narrowing of slot numbers does not trap yet. */
  predicate CanGrow<V>(m: Map<V>) {
    m.cap + m.cap / 2 < 0x8000_0000
  }

  /** What `insert` works on: the map, grown if it was full. */
  ghost function WithRoom<V>(m: Map<V>, zero: V): Map<V>
    requires m.cap >= 0
  {
    if IsFull(m) then Grow(m, zero) else m
  }

  lemma {:induction false} RoomIsMade<V>(m: Map<V>, zero: V, epoch: int)
    requires MapInv(m) && (IsFull(m) ==> CanGrow(m))
    ensures var g := WithRoom(m, zero);
            && MapInv(g) && !IsFull(g) && HasRoom(g) && g.cap < 0x8000_0000
            && Contents(g, epoch) == Contents(m, epoch) && g.log == m.log
  {
    if IsFull(m) {
      GrowKeepsInv(m, zero);
      GrowRefines(m, zero, epoch);
    }
    OpenedReady(WithRoom(m, zero));
  }

  /** All that an insertion into an orderly map brings about. */
  datatype InsertResult = Inserted(h: Handle) | Trapped

  /** What an insertion makes of the map: unless it traps, exactly one entry more, under a new handle and ticket. */
  ghost predicate Gains<V>(m: Map<V>, w: Map<V>, zero: V, epoch: int, v: V, r: InsertResult) {
    match r
    case Trapped => true
    case Inserted(h) =>
      && m.cap >= 0
      && var g := WithRoom(m, zero);
         && HasRoom(g) && w == InsertIn(g, v) && h == InsertHandle(g, epoch)
         && h.slot == (if m.holeHead >= 0 then m.holeHead else m.cursor)
         && h !in Contents(m, epoch) && Contents(w, epoch) == Contents(m, epoch)[h := v]
         && 0 <= FreeSlot(g) < g.cap && NewTicket(g) !in m.log && Issued(w, epoch, h, NewTicket(g), v)
  }

  lemma {:induction false} InsertGains<V>(m: Map<V>, zero: V, v: V, epoch: int)
    requires MapInv(m) && (IsFull(m) ==> CanGrow(m))
    ensures var g := WithRoom(m, zero);
            && HasRoom(g) && g.cap < 0x8000_0000 && MapInv(InsertIn(g, v))
            && Gains(m, InsertIn(g, v), zero, epoch, v, Inserted(InsertHandle(g, epoch)))
  {
    RoomIsMade(m, zero, epoch);
    InsertRefines(WithRoom(m, zero), v, epoch);
    InsertIssuesTicket(WithRoom(m, zero), v, epoch);
  }

  // ---------------------------------------------------------------- whole runs

  /** One change of the map: growth of a full one, an insertion where there is room, or a removal. */
  ghost predicate Step<V(!new)>(m: Map<V>, w: Map<V>, zero: V)
    requires MapInv(m)
  {
    || (m.holeHead < 0 && m.cursor >= m.cap && m.cap + m.cap / 2 < 0x8000_0000 && w == Grow(m, zero))
    || (HasRoom(m) && exists v :: w == InsertIn(m, v))
    || exists s :: Occupied(m, s) && w == Cut(m, s)
  }

  ghost predicate IsRun<V(!new)>(ms: seq<Map<V>>, zero: V) {
    && |ms| > 0 && MapInv(ms[0])
    && (|ms| > 1 ==> Step(ms[0], ms[1], zero) && IsRun(ms[1..], zero))
  }

  /** What a step does to a ticket: it stays in the log, its handle is the same, and a stay that ended stays ended. */
  ghost predicate TicketKept<V>(m: Map<V>, w: Map<V>, t: Ticket) {
    && t in w.log && t in m.log && w.log[t] == m.log[t]
    && |m.base| == m.cap && |w.base| == w.cap && 0 <= t.slot < m.cap <= w.cap && w.base[t.slot] == m.base[t.slot]
    && |m.vacated| == m.cap && |w.vacated| == w.cap && m.vacated[t.slot] <= w.vacated[t.slot]
    && (Present(w, t) ==> Present(m, t))
  }

  lemma {:induction false} GrowKeepsTicket<V>(m: Map<V>, zero: V, t: Ticket)
    requires MapInv(m) && m.holeHead < 0 && m.cap + m.cap / 2 < 0x8000_0000 && t in m.log
    ensures MapInv(Grow(m, zero)) && TicketKept(m, Grow(m, zero), t)
  {
    assert TicketOk(m, t);
    GrowKeepsInv(m, zero);
    assert m.vacated[t.slot] == Grow(m, zero).vacated[t.slot] && m.base[t.slot] == Grow(m, zero).base[t.slot];
    OccupiedIff(m, t.slot);
    OccupiedIff(Grow(m, zero), t.slot);
  }

  lemma {:induction false} InsertKeepsTicket<V>(m: Map<V>, v: V, t: Ticket)
    requires MapInv(m) && HasRoom(m) && t in m.log
    ensures MapInv(InsertIn(m, v)) && TicketKept(m, InsertIn(m, v), t)
  {
    assert TicketOk(m, t);
    OpenedReady(m);
    PutKeepsInv(Opened(m), FreeSlot(m), v);
    assert Opened(m).vacated == m.vacated && Opened(m).log == m.log;
    assert t != Ticket(FreeSlot(m), m.vacated[FreeSlot(m)]);
  }

  lemma {:induction false} CutKeepsTicket<V>(m: Map<V>, s: int, t: Ticket)
    requires MapInv(m) && Occupied(m, s) && t in m.log
    ensures MapInv(Cut(m, s)) && TicketKept(m, Cut(m, s), t)
  {
    assert TicketOk(m, t);
    CutKeepsInv(m, s);
    if t.slot != s {
      CutOthersStay(m, s, t.slot);
    }
  }

  lemma {:induction false} StepKeepsTicket<V(!new)>(m: Map<V>, w: Map<V>, zero: V, t: Ticket)
    requires MapInv(m) && Step(m, w, zero) && t in m.log
    ensures MapInv(w) && TicketKept(m, w, t)
  {
    if m.holeHead < 0 && m.cursor >= m.cap && m.cap + m.cap / 2 < 0x8000_0000 && w == Grow(m, zero) {
      GrowKeepsTicket(m, zero, t);
    } else if HasRoom(m) && exists v :: w == InsertIn(m, v) {
      var v :| w == InsertIn(m, v);
      InsertKeepsTicket(m, v, t);
    } else {
      var s :| Occupied(m, s) && w == Cut(m, s);
      CutKeepsTicket(m, s, t);
    }
  }

  lemma {:induction false} RunKeepsTicket<V(!new)>(ms: seq<Map<V>>, zero: V, t: Ticket)
    requires IsRun(ms, zero) && t in ms[0].log
    ensures MapInv(ms[|ms| - 1]) && TicketKept(ms[0], ms[|ms| - 1], t)
  {
    if |ms| == 1 {
      assert TicketOk(ms[0], t);
    } else {
      StepKeepsTicket(ms[0], ms[1], zero, t);
      RunKeepsTicket(ms[1..], zero, t);
    }
  }

  lemma {:induction false} KeptHandle<V>(m: Map<V>, w: Map<V>, epoch: int, t: Ticket)
    requires MapInv(m) && MapInv(w) && TicketKept(m, w, t) && w.vacated[t.slot] - t.stay < 0x1_0000_0000
    ensures var h := TicketHandle(m, epoch, t);
            && (PLive(w, epoch, h) <==> Present(w, t))
            && (Present(w, t) ==> Get(w, epoch, h) == Some(m.log[t]))
            && (!PLive(m, epoch, h) ==> !PLive(w, epoch, h))
  {
    assert TicketHandle(m, epoch, t) == TicketHandle(w, epoch, t);
    HandleNeverRebinds(w, epoch, t);
    HandleNeverRebinds(m, epoch, t);
  }

  /**
   For life: take a handle that was issued, and any run of insertions, removals and growths after
   it.  With fewer than 2^32 vacations of its slot since, the handle validates at the end exactly
   if its own entry is still there, it then leads to the value it was issued for, and once its
   entry was gone it never validates again.
   */
  lemma {:induction false} HandleForLife<V(!new)>(ms: seq<Map<V>>, zero: V, epoch: int, t: Ticket)
    requires IsRun(ms, zero) && t in ms[0].log
    requires 0 <= t.slot < |ms[|ms| - 1].vacated| ==> ms[|ms| - 1].vacated[t.slot] - t.stay < 0x1_0000_0000
    ensures MapInv(ms[|ms| - 1]) && MapInv(ms[0]) && 0 <= t.slot < ms[0].cap
    ensures var w, h := ms[|ms| - 1], TicketHandle(ms[0], epoch, t);
            && (PLive(w, epoch, h) <==> Present(w, t))
            && (Present(w, t) ==> Get(w, epoch, h) == Some(ms[0].log[t]))
            && (!PLive(ms[0], epoch, h) ==> !PLive(w, epoch, h))
  {
    RunKeepsTicket(ms, zero, t);
    KeptHandle(ms[0], ms[|ms| - 1], epoch, t);
  }
}
