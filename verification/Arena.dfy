/**
 The arena of the runtime: blocks on a chain, allocation by moving a mark, and at most one block kept
 over a release.
 */
module Arena {
  import opened Chains

  const SPARE_MAX := 0x10_0000

  datatype Block = Block(prev: int, clean: bool, cap: int, used: int, data: seq<int>)

  /** A piece handed out: `len` bytes from `off` in block `b`. */
  datatype Piece = Piece(b: int, off: int, len: int)

  predicate Zeros(data: seq<int>, off: int, len: int) {
    0 <= off && 0 <= len && off + len <= |data| && forall i | off <= i < off + len :: data[i] == 0
  }

  predicate Overlap(p: Piece, q: Piece) {
    p.b == q.b && p.off < q.off + q.len && q.off < p.off + p.len
  }

  /** A block in use: what lies beyond the mark of a fresh block has never been written. */
  predicate BlockOk(b: Block) {
    && 64 <= b.cap == |b.data| && 0 <= b.used <= b.cap && b.used % 8 == 0
    && (b.clean ==> Zeros(b.data, b.used, b.cap - b.used))
  }

  ghost predicate LinkOk(blocks: map<int, Block>, chain: seq<int>, i: int)
    requires 0 <= i < |chain|
  {
    && 0 <= chain[i] && chain[i] in blocks && blocks[chain[i]].prev == At(chain, i + 1) && BlockOk(blocks[chain[i]])
  }

  ghost predicate ChainOk(blocks: map<int, Block>, top: int, chain: seq<int>) {
    && top == At(chain, 0) && NoDup(chain)
    && forall i {:trigger LinkOk(blocks, chain, i)} | 0 <= i < |chain| :: LinkOk(blocks, chain, i)
  }

  /** The block kept over a release: not fresh, not on the chain, and not too large. */
  ghost predicate SpareOk(blocks: map<int, Block>, spare: int, chain: seq<int>) {
    spare != -1 ==>
      && 0 <= spare && spare in blocks && spare !in chain
      && 64 <= blocks[spare].cap == |blocks[spare].data| && blocks[spare].cap <= SPARE_MAX
      && !blocks[spare].clean && blocks[spare].prev == -1
  }

  ghost predicate NoOthers(blocks: map<int, Block>, chain: seq<int>, spare: int) {
    forall b | b in blocks :: b >= 0 && (b in chain || b == spare)
  }

  /** What has been handed out lies below the marks, and no two pieces overlap. */
  ghost predicate PiecesOk(blocks: map<int, Block>, chain: seq<int>, pieces: set<Piece>) {
    && (forall p | p in pieces ::
          p.b in chain && p.b in blocks && 0 <= p.off && 0 < p.len
          && p.off + p.len <= blocks[p.b].used <= |blocks[p.b].data|)
    && (forall p, q | p in pieces && q in pieces && p != q :: !Overlap(p, q))
  }

  function RoundUp(n: int): (r: int)
    ensures r % 8 == 0 && r >= 8 && r >= n && r < (if n <= 0 then 1 else n) + 8
  {
    ((if n <= 0 then 1 else n) + 7) / 8 * 8
  }

  /** Blocks double up to the largest spare, and are never smaller than the request. */
  function NewCap(n: int, last: int): (cap: int)
    ensures cap >= n && cap >= 64 && (0 < last < SPARE_MAX ==> cap >= 2 * last)
    ensures cap == n || cap == 64 || (cap == 2 * last && last < SPARE_MAX)
  {
    var least := if n > 64 then n else 64;
    if last < SPARE_MAX && least < last * 2 then last * 2 else least
  }

  class Arena {
    var blocks: map<int, Block>
    var top: int
    var spare: int
    ghost var chain: seq<int>
    ghost var pieces: set<Piece>
    ghost var freed: seq<int>

    ghost predicate Valid()
      reads this
    {
      && ChainOk(blocks, top, chain) && SpareOk(blocks, spare, chain) && PiecesOk(blocks, chain, pieces)
      && NoOthers(blocks, chain, spare)
    }

    constructor ()
      ensures Valid() && blocks == map[] && pieces == {} && freed == []
    {
      blocks, top, spare, chain, pieces, freed := map[], -1, -1, [], {}, [];
    }

    /** An arena without blocks takes its spare back, empty again; any other arena is left as it is. */
    method TakeSpare()
      requires Valid()
      modifies this`blocks, this`top, this`spare, this`chain
      ensures Valid() && blocks.Keys == old(blocks).Keys
      ensures forall p | p in pieces :: p.b in old(blocks) && blocks[p.b] == old(blocks)[p.b]
      ensures old(top) >= 0 || old(spare) < 0 ==>
                blocks == old(blocks) && top == old(top) && spare == old(spare) && chain == old(chain)
      ensures old(top) < 0 && old(spare) >= 0 ==>
                && top == old(spare) && spare == -1 && chain == [top] && top in old(blocks)
                && blocks == old(blocks)[top := old(blocks)[top].(used := 0)]
    {
      EmptyIff(blocks, top, chain);
      if top < 0 && spare >= 0 {
        blocks := blocks[spare := blocks[spare].(used := 0)];
        top, chain := spare, [spare];
        spare := -1;
        assert LinkOk(blocks, chain, 0);
      }
    }

    /** Room for `n` bytes in the top block, which may have to be a new one at `addr`. */
    method MakeRoom(n: int, addr: int)
      requires Valid() && n >= 8 && addr >= 0 && addr !in blocks
      modifies this`blocks, this`top, this`chain
      ensures Valid() && top in blocks && top >= 0 && blocks[top].cap - blocks[top].used >= n
      ensures forall b | b in old(blocks) :: b in blocks && blocks[b] == old(blocks)[b]
      ensures if old(top) in old(blocks) && old(top) >= 0 && old(blocks)[old(top)].cap - old(blocks)[old(top)].used >= n
              then blocks == old(blocks) && top == old(top)
              else top == addr && blocks.Keys == old(blocks).Keys + {addr} && blocks[addr].used == 0
                   && blocks[addr].cap
                      == NewCap(n, if old(top) >= 0 && old(top) in old(blocks) then old(blocks)[old(top)].cap else 0)
    {
      assert top >= 0 ==> LinkOk(blocks, chain, 0);
      if top < 0 || blocks[top].cap - blocks[top].used < n {
        var cap := if n > 64 then n else 64;
        if top >= 0 && blocks[top].cap < SPARE_MAX && cap < blocks[top].cap * 2 {
          cap := blocks[top].cap * 2;
        }
        ghost var was := chain;
        blocks := blocks[addr := Block(top, true, cap, 0, seq(cap, _ => 0))];
        top, chain := addr, [addr] + chain;
        ChainGrows(old(blocks), blocks, old(top), was, addr);
      }
    }

    /**
     `extc_arena_alloc`: at least `n` bytes, all zero, that overlap nothing handed out since the last
     release; and nothing handed out before changes. The bytes come from the top block, or in an arena
     without blocks from the start of its spare, and from a new block exactly if that one is missing
     or has not enough room.
     */
    method Alloc(size: int, addr: int) returns (p: Piece)
      requires Valid() && addr >= 0 && addr !in blocks
      modifies this`blocks, this`top, this`spare, this`chain, this`pieces
      ensures Valid() && pieces == old(pieces) + {p} && p.len == RoundUp(size) && p.b in blocks
      ensures var b := if old(top) >= 0 then old(top) else old(spare);
              var from := if old(top) >= 0 && b in old(blocks) then old(blocks)[b].used else 0;
              if b >= 0 && b in old(blocks) && old(blocks)[b].cap - from >= RoundUp(size)
              then p.b == b && p.off == from && blocks.Keys == old(blocks).Keys
              else p.b == addr && p.off == 0 && blocks.Keys == old(blocks).Keys + {addr}
      ensures blocks[p.b].used == p.off + p.len
      ensures spare == if old(top) >= 0 then old(spare) else -1
      ensures Zeros(blocks[p.b].data, p.off, p.len)
      ensures forall q | q in old(pieces) :: !Overlap(p, q)
      ensures forall q, i | q in old(pieces) && q.off <= i < q.off + q.len ::
                && q.b in blocks && q.b in old(blocks) && 0 <= i < |blocks[q.b].data| && i < |old(blocks)[q.b].data|
                && blocks[q.b].data[i] == old(blocks)[q.b].data[i]
    {
      EmptyIff(blocks, top, chain);
      assert top >= 0 ==> LinkOk(blocks, chain, 0);
      var n := RoundUp(size);
      TakeSpare();
      MakeRoom(n, addr);
      p := Cut(n);
    }

    /** The mark of the top block moves up over `n` bytes, which are cleared unless the block is fresh. */
    method Cut(n: int) returns (p: Piece)
      requires Valid() && n >= 8 && n % 8 == 0 && top in blocks && top >= 0 && blocks[top].cap - blocks[top].used >= n
      modifies this`blocks, this`pieces
      ensures Valid() && pieces == old(pieces) + {p} && p.len == n && p.b == top && p.off == old(blocks)[top].used
      ensures blocks.Keys == old(blocks).Keys && Zeros(blocks[top].data, p.off, n)
      ensures forall q | q in old(pieces) :: !Overlap(p, q)
      ensures forall b | b in blocks && b != top :: blocks[b] == old(blocks)[b]
      ensures |blocks[top].data| == |old(blocks)[top].data| && blocks[top].used == p.off + n
      ensures forall i | 0 <= i < p.off && i < |blocks[top].data| :: blocks[top].data[i] == old(blocks)[top].data[i]
    {
      assert LinkOk(blocks, chain, 0);
      var b := blocks[top];
      p := Piece(top, b.used, n);
      var data := if b.clean then b.data else Cleared(b.data, b.used, n);
      ghost var was := blocks;
      blocks := blocks[top := b.(used := b.used + n, data := data)];
      pieces := pieces + {p};
      SameChain(was, blocks, top, chain, top);
    }

    /** The program writes into what it was given. */
    method Write(p: Piece, i: int, v: int)
      requires Valid() && p in pieces && p.off <= i < p.off + p.len
      modifies this`blocks
      ensures Valid() && p.b in old(blocks) && 0 <= i < |old(blocks)[p.b].data|
      ensures blocks == old(blocks)[p.b := old(blocks)[p.b].(data := old(blocks)[p.b].data[i := v])]
    {
      var b := blocks[p.b];
      ghost var was := blocks;
      ghost var k :| 0 <= k < |chain| && chain[k] == p.b;
      assert LinkOk(blocks, chain, k);
      blocks := blocks[p.b := b.(data := b.data[i := v])];
      SameChain(was, blocks, top, chain, p.b);
    }

    /**
     `extc_arena_release`: every block of the chain is freed, once, but for the one that becomes the
     spare: the first that is not too large, if there was no spare.
     */
    method Release()
      requires Valid()
      modifies this
      ensures Valid() && top == -1 && chain == [] && pieces == {}
      ensures freed == old(freed) + Dropped(old(blocks), old(chain), old(spare))
      ensures spare == Kept(old(blocks), old(chain), old(spare))
      ensures blocks.Keys == if spare == -1 then {} else {spare}
      ensures spare != -1 ==> spare in old(blocks) && SameBytes(blocks[spare], old(blocks)[spare])
    {
      pieces := {};
      while top >= 0
        invariant Valid() && pieces == {}
        invariant forall b | b in blocks :: b in old(blocks) && SameBytes(blocks[b], old(blocks)[b])
        invariant freed + Dropped(blocks, chain, spare) == old(freed) + Dropped(old(blocks), old(chain), old(spare))
        invariant Kept(blocks, chain, spare) == Kept(old(blocks), old(chain), old(spare))
        decreases |chain|
      {
        ReleaseTop();
      }
      EmptyIff(blocks, top, chain);
      assert forall b :: b in blocks.Keys <==> b == spare && spare != -1;
    }

    method ReleaseTop()
      requires Valid() && top >= 0 && pieces == {}
      modifies this`blocks, this`top, this`spare, this`chain, this`freed
      ensures Valid() && |chain| + 1 == |old(chain)|
      ensures forall b | b in blocks :: b in old(blocks) && SameBytes(blocks[b], old(blocks)[b])
      ensures freed + Dropped(blocks, chain, spare) == old(freed) + Dropped(old(blocks), old(chain), old(spare))
      ensures Kept(blocks, chain, spare) == Kept(old(blocks), old(chain), old(spare))
    {
      assert LinkOk(blocks, chain, 0);
      ghost var b0, c0, s0 := blocks, chain, spare;
      var t := top;
      var p := blocks[t].prev;
      if spare == -1 && blocks[t].cap <= SPARE_MAX {
        spare := t;
        blocks := blocks[t := blocks[t].(prev := -1, clean := false)];
      } else {
        blocks := blocks - {t};
        freed := freed + [t];
      }
      top, chain := p, chain[1..];
      TopReleased(b0, c0, s0, blocks, spare, t);
    }

    /** `extc_arena_destroy`: nothing is left, and every block has been freed once. */
    method Destroy()
      requires Valid()
      modifies this
      ensures Valid() && blocks == map[] && top == spare == -1 && pieces == {}
      ensures var kept := Kept(old(blocks), old(chain), old(spare));
              freed == old(freed) + Dropped(old(blocks), old(chain), old(spare)) + if kept == -1 then [] else [kept]
    {
      Release();
      if spare >= 0 {
        blocks := blocks - {spare};
        freed := freed + [spare];
        spare := -1;
      }
      assert blocks.Keys == {};
    }
  }

  predicate SameBytes(b: Block, c: Block) {
    b.cap == c.cap && b.used == c.used && b.data == c.data
  }

  function Cleared(data: seq<int>, off: int, len: int): (w: seq<int>)
    requires 0 <= off && 0 <= len && off + len <= |data|
    ensures |w| == |data| && Zeros(w, off, len)
    ensures forall i | 0 <= i < |data| && !(off <= i < off + len) :: w[i] == data[i]
  {
    data[..off] + seq(len, _ => 0) + data[off + len..]
  }

  // ---------------------------------------------------------------- what a release keeps and frees

  /** The block that is the spare after a release. */
  ghost function Kept(blocks: map<int, Block>, chain: seq<int>, spare: int): int {
    if chain == [] then spare
    else if spare == -1 && chain[0] in blocks && blocks[chain[0]].cap <= SPARE_MAX
      then Kept(blocks, chain[1..], chain[0])
    else Kept(blocks, chain[1..], spare)
  }

  /** The blocks that are freed, in order. */
  ghost function Dropped(blocks: map<int, Block>, chain: seq<int>, spare: int): seq<int> {
    if chain == [] then []
    else if spare == -1 && chain[0] in blocks && blocks[chain[0]].cap <= SPARE_MAX
      then Dropped(blocks, chain[1..], chain[0])
    else [chain[0]] + Dropped(blocks, chain[1..], spare)
  }

  lemma {:induction false} DroppedFirst(blocks: map<int, Block>, chain: seq<int>, spare: int)
    requires chain != []
    ensures spare == -1 && chain[0] in blocks && blocks[chain[0]].cap <= SPARE_MAX ==>
              Dropped(blocks, chain, spare) == Dropped(blocks, chain[1..], chain[0])
    ensures !(spare == -1 && chain[0] in blocks && blocks[chain[0]].cap <= SPARE_MAX) ==>
              Dropped(blocks, chain, spare) == [chain[0]] + Dropped(blocks, chain[1..], spare)
  {
  }

  /** Taking the first block off the chain: it becomes the spare, or is freed. */
  lemma {:induction false} TopReleased(b0: map<int, Block>, c0: seq<int>, s0: int, b1: map<int, Block>, s1: int, t: int)
    requires c0 != [] && t == c0[0] && t in b0 && ChainOk(b0, t, c0) && SpareOk(b0, s0, c0) && NoOthers(b0, c0, s0)
    requires var keep := s0 == -1 && b0[t].cap <= SPARE_MAX;
             && s1 == (if keep then t else s0)
             && b1 == if keep then b0[t := b0[t].(prev := -1, clean := false)] else b0 - {t}
    ensures ChainOk(b1, At(c0, 1), c0[1..]) && SpareOk(b1, s1, c0[1..]) && NoOthers(b1, c0[1..], s1)
    ensures Kept(b1, c0[1..], s1) == Kept(b0, c0, s0)
    ensures (if s1 == s0 then [t] else []) + Dropped(b1, c0[1..], s1) == Dropped(b0, c0, s0)
  {
    assert LinkOk(b0, c0, 0);
    TailOfChain(c0);
    assert c0 == [t] + c0[1..];
    TailOk(b0, b1, c0, t);
    TailSame(b0, b1, c0[1..], s1, t);
    DroppedFirst(b0, c0, s0);
  }

  lemma {:induction false} DroppedFrom(blocks: map<int, Block>, chain: seq<int>, spare: int)
    ensures forall x | x in Dropped(blocks, chain, spare) :: x in chain
    ensures Kept(blocks, chain, spare) == spare || Kept(blocks, chain, spare) in chain
    ensures spare != -1 ==> Kept(blocks, chain, spare) == spare && Dropped(blocks, chain, spare) == chain
    decreases |chain|
  {
    if chain != [] {
      var first := chain[0];
      assert chain == [first] + chain[1..];
      DroppedFrom(blocks, chain[1..], spare);
      DroppedFrom(blocks, chain[1..], first);
    }
  }

  /** Each block of the chain is either freed, and once, or kept. */
  lemma {:induction false} FreedOrKept(blocks: map<int, Block>, chain: seq<int>, spare: int, x: int)
    requires NoDup(chain) && x in chain && spare !in chain && -1 !in chain
    ensures x in Dropped(blocks, chain, spare) <==> x != Kept(blocks, chain, spare)
    ensures NoDup(Dropped(blocks, chain, spare))
    decreases |chain|
  {
    var first, rest := chain[0], chain[1..];
    TailOfChain(chain);
    assert chain == [first] + rest;
    assert first in chain && forall y | y in rest :: y in chain;
    DroppedFrom(blocks, rest, first);
    DroppedFrom(blocks, rest, spare);
    if !(spare == -1 && first in blocks && blocks[first].cap <= SPARE_MAX) {
      if rest != [] {
        FreedOrKept(blocks, rest, spare, if x == first then rest[0] else x);
      }
      HeadKeepsNoDup(first, Dropped(blocks, rest, spare));
    }
  }

  lemma {:induction false} HeadKeepsNoDup(x: int, s: seq<int>)
    requires NoDup(s) && x !in s
    ensures NoDup([x] + s)
  {
    forall i, j | 0 <= i < j < |[x] + s| ensures ([x] + s)[i] != ([x] + s)[j] {
      assert ([x] + s)[j] == s[j - 1];
    }
  }

  // ---------------------------------------------------------------- chains

  lemma {:induction false} EmptyIff(blocks: map<int, Block>, top: int, chain: seq<int>)
    requires ChainOk(blocks, top, chain)
    ensures top < 0 <==> chain == []
  {
    if chain != [] {
      assert LinkOk(blocks, chain, 0);
    }
  }

  lemma {:induction false} ChainGrows(blocks: map<int, Block>, w: map<int, Block>, top: int, chain: seq<int>, addr: int)
    requires ChainOk(blocks, top, chain) && addr !in blocks && addr >= 0 && addr in w && w == blocks[addr := w[addr]]
    requires w[addr].prev == top && BlockOk(w[addr])
    ensures ChainOk(w, addr, [addr] + chain)
  {
    var d := [addr] + chain;
    forall i | 0 <= i < |chain| ensures chain[i] != addr { assert LinkOk(blocks, chain, i); }
    forall i | 0 <= i < |d| ensures LinkOk(w, d, i) {
      if i > 0 {
        assert d[i] == chain[i - 1] && At(d, i + 1) == At(chain, i) && LinkOk(blocks, chain, i - 1);
      }
    }
    forall i, j | 0 <= i < j < |d| ensures d[i] != d[j] {
      assert d[j] == chain[j - 1];
    }
  }

  /** A block on the chain that keeps its link and stays in order changes nothing for the chain. */
  lemma {:induction false} SameChain(blocks: map<int, Block>, w: map<int, Block>, top: int, chain: seq<int>, x: int)
    requires ChainOk(blocks, top, chain) && x in blocks && x in w && w == blocks[x := w[x]]
    requires w[x].prev == blocks[x].prev && BlockOk(w[x])
    ensures ChainOk(w, top, chain)
  {
    forall i | 0 <= i < |chain| ensures LinkOk(w, chain, i) { assert LinkOk(blocks, chain, i); }
  }

  /** The chain without its first block, whatever became of that one. */
  lemma {:induction false} TailOk(blocks: map<int, Block>, w: map<int, Block>, chain: seq<int>, t: int)
    requires chain != [] && ChainOk(blocks, chain[0], chain) && t == chain[0]
    requires forall b | b in blocks && b != t :: b in w && w[b] == blocks[b]
    ensures ChainOk(w, At(chain, 1), chain[1..])
  {
    TailOfChain(chain);
    forall i | 0 <= i < |chain[1..]| ensures LinkOk(w, chain[1..], i) {
      assert LinkOk(blocks, chain, i + 1) && chain[1..][i] == chain[i + 1];
      assert chain[1..][i] in chain[1..];
      assert At(chain[1..], i + 1) == At(chain, i + 2);
    }
  }

  lemma {:induction false} TailSame(blocks: map<int, Block>, w: map<int, Block>, chain: seq<int>, spare: int, t: int)
    requires t !in chain && forall b | b != t :: (b in w <==> b in blocks) && (b in blocks ==> w[b] == blocks[b])
    ensures Dropped(w, chain, spare) == Dropped(blocks, chain, spare)
    ensures Kept(w, chain, spare) == Kept(blocks, chain, spare)
    decreases |chain|
  {
    if chain != [] {
      var first := chain[0];
      assert first in chain;
      TailSame(blocks, w, chain[1..], spare, t);
      TailSame(blocks, w, chain[1..], first, t);
    }
  }
}
