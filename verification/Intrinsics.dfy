/**
 The library routines that repaired programs call (src/intrinsic/persistent_intrinsics.c), in their
 `clwb` build: the bulk routines, which flush what a C library function has written and leave the fence
 to the caller, and the naive ones, which store, flush and fence byte by byte.
 */
module Intrinsics {
  import opened Persistence

  const INT64_MAX: int := 0x7fff_ffff_ffff_ffff
  const TWO_TO_THE_31: int := 0x8000_0000
  const TWO_TO_THE_32: int := 0x1_0000_0000

  /** The C conversion of a `size_t` to `int`. */
  function ToInt(n: nat): int {
    (n + TWO_TO_THE_31) % TWO_TO_THE_32 - TWO_TO_THE_31
  }

  const NUL: byte := 0

  // ----- Operations of the routines -------------------------------------------------------------

  /** Store, flush and fence the bytes one by one. */
  function ByteByByte(writes: seq<(nat, byte)>): seq<Op> {
    if writes == [] then []
    else
      var (a, v) := writes[|writes| - 1];
      ByteByByte(writes[..|writes| - 1]) + [Store(a, [v]), Clwb(a), Fence]
  }


  function Upwards(d: nat, data: seq<byte>): seq<(nat, byte)> {
    seq(|data|, i requires 0 <= i < |data| => (d + i, data[i]))
  }

  function Downwards(d: nat, data: seq<byte>): seq<(nat, byte)> {
    seq(|data|, i requires 0 <= i < |data| => (d + (|data| - 1 - i), data[|data| - 1 - i]))
  }

  function Chunks(n: nat): nat {
    (n + 63) / 64
  }

  /** The flushes of `flush_loop`. */
  function LineFlushes(p: nat, n: nat): seq<Op> {
    seq(Chunks(n), i requires 0 <= i => Clwb(p + 64 * i))
  }

  /** A bulk routine: the library function writes `data`, and the loop flushes. */
  function Bulk(d: nat, data: seq<byte>): seq<Op> {
    [Store(d, data)] + LineFlushes(d, |data|)
  }

  /** Memory contents after `data` is written at `d`. */
  function Overwritten(mem: seq<byte>, d: nat, data: seq<byte>): seq<byte>
    requires d + |data| <= |mem|
  {
    mem[..d] + data + mem[d + |data|..]
  }

  lemma OverwrittenAt(mem: seq<byte>, d: nat, data: seq<byte>, b: nat)
    requires d + |data| <= |mem|
    ensures |Overwritten(mem, d, data)| == |mem|
    ensures b < |mem| ==> Overwritten(mem, d, data)[b] == if d <= b < d + |data| then data[b - d] else mem[b]
  {
  }

  /** One more byte, going upwards. */
  lemma UpwardsStep(mem: seq<byte>, d: nat, data: seq<byte>, v: byte)
    requires d + |data| < |mem|
    ensures Overwritten(mem, d, data)[d + |data| := v] == Overwritten(mem, d, data + [v])
    ensures Upwards(d, data + [v]) == Upwards(d, data) + [(d + |data|, v)]
  {
  }

  /** One more byte, going downwards. */
  lemma DownwardsStep(mem: seq<byte>, d: nat, data: seq<byte>, v: byte)
    requires 0 < d && d + |data| <= |mem|
    ensures Overwritten(mem, d, data)[d - 1 := v] == Overwritten(mem, d - 1, [v] + data)
    ensures Downwards(d - 1, [v] + data) == Downwards(d, data) + [(d - 1, v)]
  {
  }

  /** What copying upwards byte by byte writes: bytes of the source, or, where the destination starts
      within it, bytes already written. */
  function CopiedUp(mem: seq<byte>, d: nat, s: nat, n: nat): (r: seq<byte>)
    requires s + n <= |mem|
    ensures |r| == n
  {
    if n == 0 then []
    else
      var c := CopiedUp(mem, d, s, n - 1);
      c + [if s < d <= s + n - 1 then c[s + n - 1 - d] else mem[s + n - 1]]
  }

  /** Copying upwards gets every byte right unless the destination starts within the source. There the
      first bytes of the source are repeated over and over. */
  lemma {:induction false} CopiedUpMeaning(mem: seq<byte>, d: nat, s: nat, n: nat)
    requires s + n <= |mem|
    ensures d <= s || s + n <= d ==> CopiedUp(mem, d, s, n) == mem[s..s + n]
    ensures s < d ==> Repeats(mem, s, d - s, CopiedUp(mem, d, s, n))
  {
    if n != 0 {
      var c := CopiedUp(mem, d, s, n - 1);
      CopiedUpMeaning(mem, d, s, n - 1);
      if s < d {
        RepeatsMore(mem, s, d - s, c);
      }
    }
  }

  /** The first bytes are those of memory at `s`, as many as `period`; then they come again. */
  predicate Repeats(mem: seq<byte>, s: nat, period: nat, data: seq<byte>)
    requires s + |data| <= |mem|
  {
    && (forall i | 0 <= i < |data| && i < period :: data[i] == mem[s..][i])
    && (forall i, j | 0 <= i < |data| && 0 <= j < |data| && j == i + period :: data[j] == data[i])
  }

  lemma RepeatsMore(mem: seq<byte>, s: nat, period: nat, c: seq<byte>)
    requires 0 < period && s + |c| < |mem| && Repeats(mem, s, period, c)
    ensures Repeats(mem, s, period, c + [if period <= |c| then c[|c| - period] else mem[s + |c|]])
  {
  }

  /** The operations of `memmove_naive`. */
  function MoveOps(d: nat, s: nat, data: seq<byte>): seq<Op> {
    if s == d || data == [] then []
    else ByteByByte(if s < d < s + |data| then Downwards(d, data) else Upwards(d, data))
  }

  /** Bytes before the first NUL among the first `n`. */
  function StringLength(mem: seq<byte>, src: nat, n: nat): nat
    decreases n
  {
    if n == 0 || |mem| <= src || mem[src] == NUL then 0 else 1 + StringLength(mem, src + 1, n - 1)
  }

  lemma {:induction false} StringLengthMeaning(mem: seq<byte>, src: nat, n: nat)
    ensures var len := StringLength(mem, src, n);
            && len <= n && (0 < len ==> src + len <= |mem|)
            && (forall b | src <= b < src + len :: mem[b] != NUL)
            && (len < n && src + len < |mem| ==> mem[src + len] == NUL)
    decreases n
  {
    if n != 0 && src < |mem| && mem[src] != NUL {
      StringLengthMeaning(mem, src + 1, n - 1);
    }
  }

  /** `strncpy` may read its source: a NUL, or `n` bytes, come before the end of memory. */
  predicate Readable(mem: seq<byte>, src: nat, n: nat) {
    var len := StringLength(mem, src, n);
    len == n || src + len < |mem|
  }

  /** The bytes that `strncpy` reads are none that it writes. */
  predicate Apart(mem: seq<byte>, dest: nat, src: nat, n: nat) {
    var len := StringLength(mem, src, n);
    dest + n <= src || src + (if len < n then len + 1 else n) <= dest
  }

  /** What `strncpy` writes: the string up to its NUL, then NULs up to `n` bytes. */
  function Padded(mem: seq<byte>, src: nat, n: nat): (r: seq<byte>)
    ensures |r| == n
  {
    StringLengthMeaning(mem, src, n);
    var len := StringLength(mem, src, n);
    seq(n, i requires 0 <= i < n => if i < len then mem[src + i] else NUL)
  }

  /** What the machine holds is what the array holds. */
  ghost predicate Explains(m: Machine, mem: seq<byte>) {
    forall b: nat | b < |mem| :: b in m.image && m.image[b] == mem[b]
  }

  lemma StoreImage(m: Machine, d: nat, data: seq<byte>)
    ensures forall b: nat :: (b in Step(m, Store(d, data)).image <==> b in m.image || d <= b < d + |data|)
    ensures forall b: nat | b in Step(m, Store(d, data)).image ::
              Step(m, Store(d, data)).image[b] == if d <= b < d + |data| then data[b - d] else m.image[b]
  {
    assert forall b: nat :: Store(d, data).Writes(b) <==> d <= b < d + |data|;
  }

  lemma ExplainsStore(ops: seq<Op>, mem: seq<byte>, d: nat, data: seq<byte>)
    requires d + |data| <= |mem| && Explains(Run(ops), mem)
    ensures Explains(Run(ops + [Store(d, data)]), Overwritten(mem, d, data))
  {
    hide Step, Overwritten, RunFrom;
    RunFromAppend(EMPTY, ops, Store(d, data));
    StoreImage(Run(ops), d, data);
    OverwrittenAt(mem, d, data, 0);
    forall b: nat | b < |mem|
      ensures Overwritten(mem, d, data)[b] == if d <= b < d + |data| then data[b - d] else mem[b] {
      OverwrittenAt(mem, d, data, b);
    }
  }

  lemma ExplainsOther(ops: seq<Op>, mem: seq<byte>, op: Op)
    requires !op.Store? && Explains(Run(ops), mem)
    ensures Explains(Run(ops + [op]), mem)
  {
    RunFromAppend(EMPTY, ops, op);
  }

  lemma Begin(mem: seq<byte>, ops: seq<Op>, d: nat)
    requires d <= |mem|
    ensures Overwritten(mem, d, []) == mem
    ensures ops + ByteByByte(Upwards(d, [])) == ops + ByteByByte(Downwards(d, [])) == ops
  {
  }

  lemma OneMore(data: seq<byte>, i: nat)
    requires i < |data|
    ensures [data[i]] + data[i + 1..] == data[i..]
  {
  }

  lemma MovedNowhere(mem: seq<byte>, d: nat, s: nat, n: nat)
    requires d + n <= |mem| && s + n <= |mem| && (s == d || n == 0)
    ensures Overwritten(mem, d, mem[s..s + n]) == mem
  {
  }

  // ----- The routines -------------------------------------------------------------------------------

  /** Memory, with the history of what was done to it. */
  class Pm {
    const mem: array<byte>
    ghost var log: seq<Op>

    /** The history explains the contents. */
    ghost predicate Valid()
      reads this, mem
    {
      mem.Length < INT64_MAX && Explains(Run(log), mem[..])
    }

    constructor (contents: array<byte>)
      requires contents.Length < INT64_MAX
      ensures Valid() && mem == contents && log == [Store(0, contents[..])]
    {
      mem := contents;
      log := [Store(0, contents[..])];
      new;
      RunFromAppend(EMPTY, [], log[0]);
      assert [] + log == log;
      StoreImage(EMPTY, 0, contents[..]);
    }

    method StoreByte(a: nat, v: byte)
      requires Valid() && a < mem.Length
      modifies this`log, mem
      ensures Valid()
      ensures log == old(log) + [Store(a, [v])]
      ensures mem[..] == old(mem[..])[a := v]
    {
      hide Explains, Run;
      ExplainsStore(log, mem[..], a, [v]);
      assert Overwritten(mem[..], a, [v]) == mem[..][a := v];
      mem[a] := v;
      log := log + [Store(a, [v])];
    }

    method ClwbAt(a: nat)
      requires Valid()
      modifies this`log
      ensures Valid()
      ensures log == old(log) + [Clwb(a)]
    {
      ExplainsOther(log, mem[..], Clwb(a));
      log := log + [Clwb(a)];
    }

    method Sfence()
      requires Valid()
      modifies this`log
      ensures Valid()
      ensures log == old(log) + [Fence]
    {
      ExplainsOther(log, mem[..], Fence);
      log := log + [Fence];
    }

    /** A write of the C library; in which order it writes the bytes is left open. */
    method LibraryWrite(d: nat, data: seq<byte>)
      requires Valid() && d + |data| <= mem.Length
      modifies this`log, mem
      ensures Valid()
      ensures log == old(log) + [Store(d, data)]
      ensures mem[..] == Overwritten(old(mem[..]), d, data)
    {
      hide Explains, Run;
      ExplainsStore(log, mem[..], d, data);
      forall i | 0 <= i < |data| {
        mem[d + i] := data[i];
      }
      assert mem[..] == Overwritten(old(mem[..]), d, data);
      log := log + [Store(d, data)];
    }

    method FlushLoop(p: nat, n: nat)
      requires Valid() && p + n <= mem.Length
      modifies this`log
      ensures Valid()
      ensures log == old(log) + LineFlushes(p, n)
    {
      hide Explains, Run, ByteByByte;
      var i := 0;
      ghost var k := 0;
      while i < n
        invariant i == 64 * k && k <= Chunks(n)
        invariant Valid()
        invariant log == old(log) + LineFlushes(p, n)[..k]
      {
        ClwbAt(p + i);
        assert LineFlushes(p, n)[..k + 1] == LineFlushes(p, n)[..k] + [Clwb(p + i)];
        i := i + 64;
        k := k + 1;
      }
      assert LineFlushes(p, n)[..k] == LineFlushes(p, n);
    }

    /** One round of a naive loop. */
    method StoreFlushFence(a: nat, v: byte, ghost before: seq<Op>, ghost writes: seq<(nat, byte)>)
      requires Valid() && a < mem.Length
      requires log == before + ByteByByte(writes)
      modifies this`log, mem
      ensures Valid()
      ensures log == before + ByteByByte(writes + [(a, v)])
      ensures mem[..] == old(mem[..])[a := v]
    {
      hide Explains, Run;
      StoreByte(a, v);
      ClwbAt(a);
      Sfence();
      assert (writes + [(a, v)])[..|writes|] == writes;
    }

    /** A naive loop going upwards from `d` has written `data` so far. */
    ghost predicate Progress(mem0: seq<byte>, log0: seq<Op>, d: nat, data: seq<byte>)
      reads this, mem
    {
      d + |data| <= |mem0| && mem[..] == Overwritten(mem0, d, data) && log == log0 + ByteByByte(Upwards(d, data))
    }

    method StoreNext(a: nat, v: byte, ghost mem0: seq<byte>, ghost log0: seq<Op>, ghost d: nat, ghost data: seq<byte>)
      requires Valid() && Progress(mem0, log0, d, data) && a == d + |data| < mem.Length
      modifies this`log, mem
      ensures Valid() && Progress(mem0, log0, d, data + [v])
    {
      UpwardsStep(mem0, d, data, v);
      StoreFlushFence(a, v, log0, Upwards(d, data));
    }

    /** A naive loop going downwards has written `data` at `d` so far. */
    ghost predicate Regress(mem0: seq<byte>, log0: seq<Op>, d: nat, data: seq<byte>)
      reads this, mem
    {
      d + |data| <= |mem0| && mem[..] == Overwritten(mem0, d, data) && log == log0 + ByteByByte(Downwards(d, data))
    }

    method StorePrevious(a: nat, v: byte, ghost mem0: seq<byte>, ghost log0: seq<Op>, ghost data: seq<byte>)
      requires Valid() && Regress(mem0, log0, a + 1, data) && a < mem.Length
      modifies this`log, mem
      ensures Valid() && Regress(mem0, log0, a, [v] + data)
    {
      DownwardsStep(mem0, a + 1, data, v);
      StoreFlushFence(a, v, log0, Downwards(a + 1, data));
    }

    // The bulk routines.

    method Memset(d: nat, c: byte, n: nat)
      requires Valid() && d + n <= mem.Length
      modifies this`log, mem
      ensures Valid()
      ensures mem[..] == Overwritten(old(mem[..]), d, seq(n, i => c))
      ensures log == old(log) + Bulk(d, seq(n, i => c))
    {
      hide Explains, Run, ByteByByte;
      LibraryWrite(d, seq(n, i => c));
      FlushLoop(d, n);
    }

    method Memcpy(d: nat, s: nat, n: nat)
      requires Valid() && d + n <= mem.Length && s + n <= mem.Length
      requires d + n <= s || s + n <= d
      modifies this`log, mem
      ensures Valid()
      ensures mem[..] == Overwritten(old(mem[..]), d, old(mem[s..s + n]))
      ensures log == old(log) + Bulk(d, old(mem[s..s + n]))
    {
      hide Explains, Run, ByteByByte;
      LibraryWrite(d, mem[s..s + n]);
      FlushLoop(d, n);
    }

    method Memmove(d: nat, s: nat, n: nat)
      requires Valid() && d + n <= mem.Length && s + n <= mem.Length
      modifies this`log, mem
      ensures Valid()
      ensures mem[..] == Overwritten(old(mem[..]), d, old(mem[s..s + n]))
      ensures log == old(log) + Bulk(d, old(mem[s..s + n]))
    {
      hide Explains, Run, ByteByByte;
      LibraryWrite(d, mem[s..s + n]);
      FlushLoop(d, n);
    }

    method Strncpy(dest: nat, src: nat, n: nat) returns (r: nat)
      requires Valid() && dest + n <= mem.Length && Readable(mem[..], src, n)
      requires Apart(mem[..], dest, src, n)
      modifies this`log, mem
      ensures Valid() && r == dest
      ensures mem[..] == Overwritten(old(mem[..]), dest, old(Padded(mem[..], src, n)))
      ensures log == old(log) + Bulk(dest, old(Padded(mem[..], src, n)))
    {
      hide Explains, Run, ByteByByte;
      LibraryWrite(dest, Padded(mem[..], src, n));
      FlushLoop(dest, n);
      r := dest;
    }

    // The naive routines.

    method MemsetNaive(d: nat, c: byte, n: nat)
      requires Valid() && d + n <= mem.Length
      modifies this`log, mem
      ensures Valid()
      ensures mem[..] == Overwritten(old(mem[..]), d, seq(n, i => c))
      ensures log == old(log) + ByteByByte(Upwards(d, seq(n, i => c)))
    {
      hide Explains, Run, ByteByByte, Overwritten, Upwards;
      Begin(mem[..], log, d);
      var i := 0;
      while i < n
        invariant 0 <= i <= n && Valid()
        invariant Progress(old(mem[..]), old(log), d, seq(i, k => c))
      {
        assert seq(i, k => c) + [c] == seq(i + 1, k => c);
        StoreNext(d + i, c, old(mem[..]), old(log), d, seq(i, k => c));
        i := i + 1;
      }
    }

    /** Copies upwards, whatever the overlap. */
    method MemcpyNaive(d: nat, s: nat, n: nat)
      requires Valid() && d + n <= mem.Length && s + n <= mem.Length
      modifies this`log, mem
      ensures Valid()
      ensures mem[..] == Overwritten(old(mem[..]), d, CopiedUp(old(mem[..]), d, s, n))
      ensures log == old(log) + ByteByByte(Upwards(d, CopiedUp(old(mem[..]), d, s, n)))
    {
      hide Explains, Run, ByteByByte, Overwritten, Upwards;
      Begin(mem[..], log, d);
      ghost var mem0 := mem[..];
      var i := 0;
      while i < n
        invariant 0 <= i <= n && Valid()
        invariant Progress(mem0, old(log), d, CopiedUp(mem0, d, s, i))
      {
        OverwrittenAt(mem0, d, CopiedUp(mem0, d, s, i), s + i);
        StoreNext(d + i, mem[s + i], mem0, old(log), d, CopiedUp(mem0, d, s, i));
        i := i + 1;
      }
    }

    method MoveDownwards(d: nat, s: nat, n: nat)
      requires Valid() && s < d && 0 < n && d + n <= mem.Length
      modifies this`log, mem
      ensures Valid() && Regress(old(mem[..]), old(log), d, old(mem[s..s + n]))
    {
      hide Explains, Run, ByteByByte, Overwritten, Upwards, Downwards;
      ghost var mem0, data := mem[..], mem[s..s + n];
      Begin(mem0, log, d + n);
      assert |data| == n && data[n..] == [];
      var i := n - 1;
      while i >= 0
        invariant -1 <= i < n && Valid()
        invariant Regress(mem0, old(log), d + i + 1, data[i + 1..])
      {
        ghost var rest := data[i + 1..];
        OverwrittenAt(mem0, d + i + 1, rest, s + i);
        assert mem[..][s + i] == data[i];
        StorePrevious(d + i, mem[s + i], mem0, old(log), rest);
        OneMore(data, i);
        i := i - 1;
      }
      assert data[0..] == data;
    }

    method MoveUpwards(d: nat, s: nat, n: nat)
      requires Valid() && d < s && s + n <= mem.Length
      modifies this`log, mem
      ensures Valid() && Progress(old(mem[..]), old(log), d, old(mem[s..s + n]))
    {
      hide Explains, Run, ByteByByte, Overwritten, Upwards, Downwards;
      ghost var mem0, data := mem[..], mem[s..s + n];
      Begin(mem0, log, d);
      var i := 0;
      while i < n
        invariant 0 <= i <= n && Valid()
        invariant Progress(mem0, old(log), d, data[..i])
      {
        OverwrittenAt(mem0, d, data[..i], s + i);
        assert data[..i + 1] == data[..i] + [data[i]];
        StoreNext(d + i, mem[s + i], mem0, old(log), d, data[..i]);
        i := i + 1;
      }
      assert data[..n] == data;
    }

    /** The bytes are moved whatever the overlap, also when the conversion of `n` to `int` hides an
        overlap from the second test and the copy falls to `memcpy_naive`. If source and destination
        are the same, nothing is flushed. */
    method MemmoveNaive(d: nat, s: nat, n: nat)
      requires Valid() && d + n <= mem.Length && s + n <= mem.Length
      requires n < INT64_MAX
      modifies this`log, mem
      ensures Valid()
      ensures mem[..] == Overwritten(old(mem[..]), d, old(mem[s..s + n]))
      ensures log == old(log) + MoveOps(d, s, old(mem[s..s + n]))
    {
      hide Explains, Run, ByteByByte, Overwritten, Upwards, Downwards, CopiedUp;
      ghost var mem0 := mem[..];
      if s == d || n == 0 {
        MovedNowhere(mem0, d, s, n);
        return;
      }
      if d > s && d - s < n {
        MoveDownwards(d, s, n);
        return;
      }
      if s > d && s - d < ToInt(n) {
        MoveUpwards(d, s, n);
        return;
      }
      CopiedUpMeaning(mem0, d, s, n);
      MemcpyNaive(d, s, n);
    }

    method StrncpyNaive(dest: nat, src: nat, n: nat) returns (r: nat)
      requires Valid() && dest + n <= mem.Length && Readable(mem[..], src, n)
      requires Apart(mem[..], dest, src, n)
      modifies this`log, mem
      ensures Valid() && r == dest
      ensures mem[..] == Overwritten(old(mem[..]), dest, old(Padded(mem[..], src, n)))
      ensures log == old(log) + ByteByByte(Upwards(dest, old(Padded(mem[..], src, n))))
    {
      hide Explains, Run, ByteByByte, Overwritten, Upwards, StringLength;
      ghost var mem0 := mem[..];
      ghost var len := StringLength(mem0, src, n);
      ghost var data := Padded(mem0, src, n);
      StringLengthMeaning(mem0, src, n);
      Begin(mem0, log, dest);
      var i := 0;
      if 0 < n {
        OverwrittenAt(mem0, dest, data[..0], src);
      }
      while i < n && mem[src + i] != NUL
        invariant 0 <= i <= len && Valid()
        invariant Progress(mem0, old(log), dest, data[..i])
        invariant i < n ==> mem[src + i] == mem0[src + i]
      {
        assert data[..i + 1] == data[..i] + [data[i]];
        StoreNext(dest + i, mem[src + i], mem0, old(log), dest, data[..i]);
        i := i + 1;
        if i < n {
          OverwrittenAt(mem0, dest, data[..i], src + i);
        }
      }
      while i < n
        invariant 0 <= i <= n && len <= i && Valid()
        invariant Progress(mem0, old(log), dest, data[..i])
      {
        assert data[..i + 1] == data[..i] + [data[i]];
        StoreNext(dest + i, NUL, mem0, old(log), dest, data[..i]);
        i := i + 1;
      }
      assert data[..n] == data;
      r := dest;
    }
  }

  // ----- The naive routines expose one byte at a time ------------------------------------------------

  lemma ByteByByteSnoc(writes: seq<(nat, byte)>, a: nat, v: byte)
    ensures ByteByByte(writes + [(a, v)]) == ByteByByte(writes) + Round(a, v)
  {
    assert (writes + [(a, v)])[..|writes|] == writes;
  }

  function Round(a: nat, v: byte): seq<Op> {
    [Store(a, [v]), Clwb(a), Fence]
  }

  lemma RoundRuns(m: Machine, a: nat, v: byte)
    ensures RunFrom(m, Round(a, v)[..0]) == m
    ensures RunFrom(m, Round(a, v)[..1]) == Step(m, Store(a, [v]))
    ensures RunFrom(m, Round(a, v)[..2]) == Step(Step(m, Store(a, [v])), Clwb(a))
    ensures RunFrom(m, Round(a, v)) == Step(Step(Step(m, Store(a, [v])), Clwb(a)), Fence)
  {
    hide Step;
    var r := Round(a, v);
    assert r[..1] == [] + [r[0]] && r[..2] == r[..1] + [r[1]] && r == r[..2] + [r[2]];
    RunFromAppend(m, [], r[0]);
    RunFromAppend(m, r[..1], r[1]);
    RunFromAppend(m, r[..2], r[2]);
  }

  lemma ImageKept(m: Machine, op: Op)
    requires !op.Store?
    ensures Step(m, op).image == m.image
  {
  }

  lemma RoundImage(m: Machine, a: nat, v: byte)
    ensures RunFrom(m, Round(a, v)).image == m.image[a := v]
  {
    hide Step, RunFrom;
    RoundRuns(m, a, v);
    StoreImage(m, a, [v]);
    var m1 := Step(m, Store(a, [v]));
    ImageKept(m1, Clwb(a));
    ImageKept(Step(m1, Clwb(a)), Fence);
  }

  lemma StorePersisted(m: Machine, a: nat, v: byte, b: nat)
    requires b != a && m.Persisted(b)
    ensures Step(m, Store(a, [v])).Persisted(b)
  {
    assert !Store(a, [v]).Writes(b);
  }

  lemma OtherPersisted(m: Machine, op: Op, b: nat)
    requires !op.Store? && m.Persisted(b)
    ensures Step(m, op).Persisted(b)
  {
  }

  lemma FlushedThenFenced(m: Machine, a: nat)
    ensures Step(Step(m, Clwb(a)), Fence).Persisted(a)
  {
    assert Clwb(a).WritesBack(a);
  }

  /** A store, its flush and a fence: the byte is persisted, and other bytes are at no point less
      persisted than before. */
  lemma RoundPersists(m: Machine, a: nat, v: byte, b: nat, r: nat)
    requires r <= 3 && if b == a then r == 3 else m.Persisted(b)
    ensures RunFrom(m, Round(a, v)[..r]).Persisted(b)
  {
    hide Step, RunFrom, Machine.Persisted;
    RoundRuns(m, a, v);
    assert Round(a, v)[..3] == Round(a, v);
    var m1 := Step(m, Store(a, [v]));
    if b == a {
      FlushedThenFenced(m1, a);
    } else {
      StorePersisted(m, a, v, b);
      OtherPersisted(m1, Clwb(a), b);
      OtherPersisted(Step(m1, Clwb(a)), Fence, b);
    }
  }

  lemma {:induction false} NaivePersists(m: Machine, writes: seq<(nat, byte)>, b: nat)
    ensures |ByteByByte(writes)| == 3 * |writes|
    ensures ((exists j :: 0 <= j < |writes| && writes[j].0 == b) || m.Persisted(b))
            ==> RunFrom(m, ByteByByte(writes)).Persisted(b)
  {
    if writes != [] {
      var n := |writes| - 1;
      var front := writes[..n];
      var (a, v) := writes[n];
      assert writes == front + [(a, v)];
      NaivePersists(m, front, b);
      ByteByByteSnoc(front, a, v);
      RunFromConcat(m, ByteByByte(front), Round(a, v));
      assert Round(a, v)[..3] == Round(a, v);
      if (exists j :: 0 <= j < |writes| && writes[j].0 == b) || m.Persisted(b) {
        RoundPersists(RunFrom(m, ByteByByte(front)), a, v, b, 3);
      }
      assert forall j | 0 <= j < n :: writes[j] == front[j];
    }
  }

  ghost predicate WrittenIn(ops: seq<Op>, b: nat) {
    exists i :: 0 <= i < |ops| && ops[i].Writes(b)
  }

  lemma {:induction false} WrittenByRounds(writes: seq<(nat, byte)>, b: nat)
    ensures |ByteByByte(writes)| == 3 * |writes|
    ensures WrittenIn(ByteByByte(writes), b) ==> exists j :: 0 <= j < |writes| && writes[j].0 == b
  {
    if writes != [] && WrittenIn(ByteByByte(writes), b) {
      var n := |writes| - 1;
      var i :| 0 <= i < |ByteByByte(writes)| && ByteByByte(writes)[i].Writes(b);
      WrittenByRounds(writes[..n], b);
      if i < 3 * n {
        assert ByteByByte(writes[..n])[i].Writes(b);
        var j :| 0 <= j < n && writes[..n][j].0 == b;
        assert writes[j].0 == b;
      } else {
        assert writes[n].0 == b;
      }
    } else if writes != [] {
      WrittenByRounds(writes[..|writes| - 1], b);
    }
  }

  /** At every intermediate point of a naive routine, the only byte written so far that a crash can lose
      is the one of the current round; between rounds there is none. */
  lemma {:induction false} OneByteExposed(m: Machine, writes: seq<(nat, byte)>, k: nat, b: nat)
    requires k <= |ByteByByte(writes)|
    requires WrittenIn(ByteByByte(writes)[..k], b) && !RunFrom(m, ByteByByte(writes)[..k]).Persisted(b)
    ensures k % 3 != 0 && k / 3 < |writes| && b == writes[k / 3].0
  {
    hide Step, RunFrom, Machine.Persisted, ByteByByte, Round, WrittenIn;
    WrittenByRounds(writes, b);
    if writes == [] {
      WrittenInPrefix([], k, b);
    } else {
      var n := |writes| - 1;
      var front, ops := writes[..n], ByteByByte(writes);
      var (a, v) := writes[n];
      assert writes == front + [(a, v)];
      ByteByByteSnoc(front, a, v);
      WrittenByRounds(front, b);
      if k <= 3 * n {
        assert ops[..k] == ByteByByte(front)[..k];
        OneByteExposed(m, front, k, b);
      } else {
        var r := k - 3 * n;
        assert ops[..k] == ByteByByte(front) + Round(a, v)[..r];
        RunFromConcat(m, ByteByByte(front), Round(a, v)[..r]);
        if b != a {
          WrittenBefore(ByteByByte(front), a, v, r, b);
          NaivePersists(m, front, b);
        }
        if b != a || r == 3 {
          RoundPersists(RunFrom(m, ByteByByte(front)), a, v, b, r);
        }
      }
    }
  }

  lemma WrittenInPrefix(ops: seq<Op>, k: nat, b: nat)
    requires k <= |ops| && WrittenIn(ops[..k], b)
    ensures ops != []
  {
  }

  lemma WrittenBefore(ops: seq<Op>, a: nat, v: byte, r: nat, b: nat)
    requires r <= 3 && b != a && WrittenIn(ops + Round(a, v)[..r], b)
    ensures WrittenIn(ops, b)
  {
    var i :| 0 <= i < |ops| + r && (ops + Round(a, v)[..r])[i].Writes(b);
    assert i < |ops|;
    assert ops[i].Writes(b);
  }

  // ----- What the naive routines leave in memory -------------------------------------------------------

  /** The writes put `data` at `d`, in any order. */
  predicate Scatters(writes: seq<(nat, byte)>, d: nat, data: seq<byte>) {
    forall j | 0 <= j < |writes| :: d <= writes[j].0 < d + |data| && writes[j].1 == data[writes[j].0 - d]
  }

  ghost predicate Hit(writes: seq<(nat, byte)>, b: nat) {
    exists j :: 0 <= j < |writes| && writes[j].0 == b
  }

  lemma {:induction false} NaiveImage(m: Machine, writes: seq<(nat, byte)>, d: nat, data: seq<byte>)
    requires Scatters(writes, d, data)
    ensures var m' := RunFrom(m, ByteByByte(writes));
            forall b: nat ::
              && (b in m'.image <==> b in m.image || Hit(writes, b))
              && (b in m'.image ==> m'.image[b] == if Hit(writes, b) then data[b - d] else m.image[b])
  {
    hide Step;
    if writes != [] {
      var n := |writes| - 1;
      var front := writes[..n];
      var (a, v) := writes[n];
      assert writes == front + [(a, v)];
      NaiveImage(m, front, d, data);
      ByteByByteSnoc(front, a, v);
      RunFromConcat(m, ByteByByte(front), Round(a, v));
      RoundImage(RunFrom(m, ByteByByte(front)), a, v);
      forall b: nat ensures Hit(writes, b) <==> Hit(front, b) || b == a {
        assert forall j | 0 <= j < n :: writes[j] == front[j];
        assert writes[n].0 == a;
      }
    }
  }

  /** Byte by byte, upwards or downwards, memory ends up as after one big store. */
  lemma NaiveImageIsStore(m: Machine, d: nat, data: seq<byte>, writes: seq<(nat, byte)>)
    requires writes == Upwards(d, data) || writes == Downwards(d, data)
    ensures RunFrom(m, ByteByByte(writes)).image == Step(m, Store(d, data)).image
  {
    hide RunFrom, ByteByByte, Step;
    NaiveImage(m, writes, d, data);
    StoreImage(m, d, data);
    forall b: nat ensures Hit(writes, b) <==> d <= b < d + |data| {
      if d <= b < d + |data| {
        var j := if writes == Upwards(d, data) then b - d else |data| - 1 - (b - d);
        assert writes[j].0 == b;
      }
    }
  }

  // ----- The lines that the bulk routines flush ----------------------------------------------------------

  ghost predicate FlushedBy(ops: seq<Op>, b: nat) {
    exists j :: 0 <= j < |ops| && ops[j].WritesBack(b)
  }

  /** The loop flushes the lines from that of `p` on, as many as `n` bytes fill, and no others. */
  lemma LinesFlushed(p: nat, n: nat, b: nat)
    ensures FlushedBy(LineFlushes(p, n), b) <==> Line(p) <= Line(b) < Line(p) + Chunks(n)
  {
    forall j: nat ensures Line(p + 64 * j) == Line(p) + j {
    }
    if Line(p) <= Line(b) < Line(p) + Chunks(n) {
      var j := Line(b) - Line(p);
      assert LineFlushes(p, n)[j].WritesBack(b);
    }
  }

  /** All of the buffer is flushed exactly when it does not run into one line more than its length
      fills. */
  lemma CoverageIff(p: nat, n: nat)
    requires 0 < n
    ensures (forall b: nat | p <= b < p + n :: FlushedBy(LineFlushes(p, n), b)) <==> p % 64 + (n - 1) % 64 < 64
  {
    var last := p + n - 1;
    LinesFlushed(p, n, last);
    assert Line(last) < Line(p) + Chunks(n) <==> p % 64 + (n - 1) % 64 < 64 by {
      assert p == 64 * Line(p) + p % 64 && n - 1 == 64 * ((n - 1) / 64) + (n - 1) % 64;
      assert Chunks(n) == (n - 1) / 64 + 1;
      var x := p % 64 + (n - 1) % 64;
      assert last == 64 * (Line(p) + (n - 1) / 64) + x;
      assert Line(last) == Line(p) + (n - 1) / 64 + x / 64;
    }
    forall b: nat | p <= b < p + n ensures Line(p) <= Line(b) <= Line(last) {
    }
    forall b: nat | p <= b < p + n ensures FlushedBy(LineFlushes(p, n), b) <==> Line(b) < Line(p) + Chunks(n) {
      LinesFlushed(p, n, b);
    }
  }

  // ----- Bulk against naive ------------------------------------------------------------------------------

  lemma {:induction false} FlushesRun(m: Machine, flushes: seq<Op>, b: nat)
    requires forall j | 0 <= j < |flushes| :: flushes[j].Flush?
    ensures RunFrom(m, flushes).image == m.image
    ensures b in RunFrom(m, flushes).dirty <==> b in m.dirty && !FlushedBy(flushes, b)
  {
    if flushes != [] {
      var n := |flushes| - 1;
      var front := flushes[..n];
      FlushesRun(m, front, b);
      assert forall j | 0 <= j < n :: flushes[j] == front[j];
      assert FlushedBy(flushes, b) <==> FlushedBy(front, b) || flushes[n].WritesBack(b);
    }
  }

  ghost predicate RangePersisted(m: Machine, d: nat, n: nat) {
    forall b | d <= b < d + n :: m.Persisted(b)
  }

  lemma BulkRun(m: Machine, d: nat, data: seq<byte>)
    ensures var m' := RunFrom(m, Bulk(d, data) + [Fence]);
            && m'.image == Step(m, Store(d, data)).image
            && forall b: nat | d <= b < d + |data| :: m'.Persisted(b) <==> FlushedBy(LineFlushes(d, |data|), b)
  {
    var flushes := LineFlushes(d, |data|);
    hide Step, RunFrom, Machine.Persisted, LineFlushes, FlushedBy;
    RunFromAppend(m, Bulk(d, data), Fence);
    RunFromConcat(m, [Store(d, data)], flushes);
    RunOne(m, Store(d, data));
    var m1 := Step(m, Store(d, data));
    LineFlushesAreFlushes(d, |data|);
    forall b: nat | d <= b < d + |data|
      ensures RunFrom(m, Bulk(d, data) + [Fence]).Persisted(b) <==> FlushedBy(flushes, b)
    {
      FlushesRun(m1, flushes, b);
      StoreDirties(m, d, data, b);
      FencePersistsClean(RunFrom(m1, flushes), b);
    }
    FlushesRun(m1, flushes, 0);
    ImageKept(RunFrom(m1, flushes), Fence);
  }

  lemma RunOne(m: Machine, op: Op)
    ensures RunFrom(m, [op]) == Step(m, op)
  {
    RunFromAppend(m, [], op);
    assert [] + [op] == [op];
  }

  lemma LineFlushesAreFlushes(p: nat, n: nat)
    ensures forall j | 0 <= j < |LineFlushes(p, n)| :: LineFlushes(p, n)[j].Flush?
  {
  }

  lemma StoreDirties(m: Machine, d: nat, data: seq<byte>, b: nat)
    requires d <= b < d + |data|
    ensures b in Step(m, Store(d, data)).dirty
  {
    assert Store(d, data).Writes(b);
  }

  lemma FencePersistsClean(m: Machine, b: nat)
    ensures Step(m, Fence).Persisted(b) <==> b !in m.dirty
  {
  }

  /** A bulk routine followed by the fence of its caller leaves the same memory as the naive routine,
      which persists all that it writes; the bulk one does so exactly when the buffer does not run into
      one line more than its length fills, so in particular when it starts on a line. */
  lemma BulkRefinesNaive(m: Machine, d: nat, data: seq<byte>, writes: seq<(nat, byte)>)
    requires writes == Upwards(d, data) || writes == Downwards(d, data)
    ensures var naive, bulk := RunFrom(m, ByteByByte(writes)), RunFrom(m, Bulk(d, data) + [Fence]);
            && bulk.image == naive.image
            && RangePersisted(naive, d, |data|)
            && (RangePersisted(bulk, d, |data|) <==> data == [] || d % 64 + (|data| - 1) % 64 < 64)
  {
    hide RunFrom, ByteByByte, LineFlushes, FlushedBy, Step;
    NaiveImageIsStore(m, d, data, writes);
    BulkRun(m, d, data);
    if data != [] {
      CoverageIff(d, |data|);
    }
    forall b | d <= b < d + |data| ensures RunFrom(m, ByteByByte(writes)).Persisted(b) {
      var j := if writes == Upwards(d, data) then b - d else |data| - 1 - (b - d);
      assert writes[j].0 == b;
      NaivePersists(m, writes, b);
    }
  }

  lemma NothingRun(m: Machine)
    ensures RunFrom(m, []) == m
  {
  }

  ghost predicate Holds(m: Machine, s: nat, data: seq<byte>) {
    forall b: nat | s <= b < s + |data| :: b in m.image && m.image[b] == data[b - s]
  }

  lemma RewritingChangesNothing(m: Machine, d: nat, data: seq<byte>)
    requires Holds(m, d, data)
    ensures Step(m, Store(d, data)).image == m.image
  {
    hide Step;
    StoreImage(m, d, data);
  }

  /** The naive move, whatever the overlap, leaves the same memory as the bulk one. It persists the
      destination, except when that is the source itself: then it does nothing at all. */
  lemma MoveOutcome(m: Machine, d: nat, s: nat, data: seq<byte>)
    requires Holds(m, s, data)
    ensures var naive, bulk := RunFrom(m, MoveOps(d, s, data)), RunFrom(m, Bulk(d, data) + [Fence]);
            && naive.image == bulk.image
            && (RangePersisted(naive, d, |data|) <==> d != s || RangePersisted(m, d, |data|))
  {
    hide RunFrom, ByteByByte, LineFlushes, FlushedBy, Step, Bulk, Holds, Machine.Persisted;
    if s == d || data == [] {
      BulkRun(m, d, data);
      NothingRun(m);
      HoldsNothing(m, d);
      RewritingChangesNothing(m, d, data);
    } else {
      BulkRefinesNaive(m, d, data, if s < d < s + |data| then Downwards(d, data) else Upwards(d, data));
    }
  }

  lemma HoldsNothing(m: Machine, d: nat)
    ensures Holds(m, d, [])
  {
  }
}
