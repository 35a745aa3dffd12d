/**
 * Cutting a list into consecutive chunks, as translator.js does twice: the
 * `for (i = 0; i < n; i += chunkSize)` loop that builds the request chunks, and
 * processChunksSequentially, which walks an array in slices and hands each slice and
 * its start offset to a callback, one call after the other.
 */
module Chunking {

  function Min(a: int, b: int): int {
    if a < b then a else b
  }

  /** Array.prototype.slice(i, j) for 0 <= i <= j: the end is clamped to the length. */
  function Slice<T>(s: seq<T>, i: nat, j: nat): (r: seq<T>)
    requires i <= j
  {
    if i >= |s| then [] else s[i..Min(j, |s|)]
  }

  /** A slice that starts inside the list ends at j or at the end of the list, and holds the items from i on. */
  lemma SliceFacts<T>(s: seq<T>, i: nat, j: nat)
    requires i <= j && i < |s|
    ensures i + |Slice(s, i, j)| == Min(j, |s|)
    ensures forall k :: 0 <= k < |Slice(s, i, j)| ==> Slice(s, i, j)[k] == s[i + k]
  {
  }

  /** A prefix grown by the next item is the next prefix. */
  lemma PrefixExtend<T>(s: seq<T>, i: nat)
    requires i < |s|
    ensures s[..i] + [s[i]] == s[..i + 1]
  {
  }

  /** The chunks of at most `size` consecutive items, in order. */
  function Chunks<T>(s: seq<T>, size: nat): seq<seq<T>>
    requires size > 0
    decreases |s|
  {
    if |s| == 0 then [] else if |s| <= size then [s] else [s[..size]] + Chunks(s[size..], size)
  }

  function Flatten<T>(cs: seq<seq<T>>): seq<T> {
    if cs == [] then [] else cs[0] + Flatten(cs[1..])
  }

  /**
   * The chunks partition the list in order: concatenated they give it back, none is empty,
   * none is longer than `size`, and only the last may be shorter.
   */
  lemma {:induction false} ChunksPartition<T>(s: seq<T>, size: nat)
    requires size > 0
    ensures Flatten(Chunks(s, size)) == s
    ensures forall k :: 0 <= k < |Chunks(s, size)| ==> 0 < |Chunks(s, size)[k]| <= size
    ensures forall k :: 0 <= k < |Chunks(s, size)| - 1 ==> |Chunks(s, size)[k]| == size
  {
    if |s| > size {
      ChunksPartition(s[size..], size);
      assert s[..size] + s[size..] == s;
    }
  }

  /** There are ceil(|s| / size) chunks: the fewest chunks of `size` items that hold the list. */
  lemma {:induction false} ChunkCount<T>(s: seq<T>, size: nat)
    requires size > 0
    ensures |s| <= |Chunks(s, size)| * size < |s| + size
  {
    if |s| > size {
      ChunkCount(s[size..], size);
      assert |Chunks(s, size)| == 1 + |Chunks(s[size..], size)|;
    }
  }

  /** Slicing after dropping the first d elements is slicing d further along. */
  lemma SliceShift<T>(s: seq<T>, d: nat, i: nat, j: nat)
    requires d <= |s| && i <= j
    ensures Slice(s[d..], i, j) == Slice(s, i + d, j + d)
  {
  }

  /** k * size, counted up one chunk at a time. */
  function Offset(k: nat, size: nat): nat {
    if k == 0 then 0 else Offset(k - 1, size) + size
  }

  lemma {:induction false} OffsetIsProduct(k: nat, size: nat)
    ensures Offset(k, size) == k * size
  {
    if k > 0 {
      OffsetIsProduct(k - 1, size);
    }
  }

  lemma {:induction false} ChunkAtOffset<T>(s: seq<T>, size: nat, k: nat)
    requires size > 0 && k < |Chunks(s, size)|
    ensures Offset(k, size) < |s|
    ensures Chunks(s, size)[k] == Slice(s, Offset(k, size), Offset(k, size) + size)
  {
    if k > 0 {
      var rest := s[size..];
      assert Chunks(s, size)[k] == Chunks(rest, size)[k - 1];
      ChunkAtOffset(rest, size, k - 1);
      var off := Offset(k - 1, size);
      SliceShift(s, size, off, off + size);
    }
  }

  /** Chunk k is the slice that starts at k * size: the slice translatePage takes for chunk k. */
  lemma ChunkAt<T>(s: seq<T>, size: nat, k: nat)
    requires size > 0 && k < |Chunks(s, size)|
    ensures k * size < |s|
    ensures Chunks(s, size)[k] == Slice(s, k * size, k * size + size)
  {
    ChunkAtOffset(s, size, k);
    OffsetIsProduct(k, size);
  }

  /** Item j of the list is item j % size of chunk j / size. */
  lemma ChunkItem<T>(s: seq<T>, size: nat, j: nat)
    requires size > 0 && j < |s|
    ensures j / size < |Chunks(s, size)| && j % size < |Chunks(s, size)[j / size]|
    ensures Chunks(s, size)[j / size][j % size] == s[j]
  {
    var k, m := j / size, j % size;
    ChunkCount(s, size);
    ChunkIndex(j, size, |Chunks(s, size)|);
    ChunkAt(s, size, k);
    var base := k * size;
    assert j == base + m && m < size;
    SliceFacts(s, base, base + size);
  }

  /** An item before n chunks' worth lies in one of those n chunks. */
  lemma ChunkIndex(j: nat, size: nat, n: nat)
    requires size > 0 && j < n * size
    ensures j / size < n && j == j / size * size + j % size && j % size < size
  {
  }

  /** Rebuilds the chunk list with the loop of translator.js: slice(i, i + size) for i = 0, size, 2 size, ... */
  method SplitIntoChunks<T>(s: seq<T>, size: nat) returns (chunks: seq<seq<T>>)
    requires size > 0
    ensures chunks == Chunks(s, size)
  {
    chunks := [];
    var i := 0;
    while i < |s|
      invariant chunks + Chunks(s[Min(i, |s|)..], size) == Chunks(s, size)
    {
      var rest := s[i..];
      assert Chunks(rest, size) == [Slice(s, i, i + size)] + Chunks(s[Min(i + size, |s|)..], size) by {
        if |rest| > size {
          assert rest[size..] == s[i + size..];
          assert rest[..size] == Slice(s, i, i + size);
        } else {
          assert rest == Slice(s, i, i + size);
          assert s[Min(i + size, |s|)..] == [];
        }
      }
      chunks := chunks + [Slice(s, i, i + size)];
      i := i + size;
    }
  }

  /** The (slice, offset) pairs that processChunksSequentially passes to its callback from offset i on. */
  function Schedule<T>(a: seq<T>, size: nat, i: nat): seq<(seq<T>, nat)>
    requires size > 0
    decreases |a| - i
  {
    if i >= |a| then [] else [(Slice(a, i, i + size), i)] + Schedule(a, size, i + size)
  }

  /** The promise of call c resolves; a call beyond the listed outcomes rejects. */
  predicate Resolves(ok: seq<bool>, c: nat) {
    c < |ok| && ok[c]
  }

  /** The index of the first of count calls whose promise rejects, or count when none does. */
  function FirstRejected(ok: seq<bool>, count: nat): (k: nat)
    ensures k <= count
    ensures forall c :: 0 <= c < k ==> Resolves(ok, c)
    ensures k < count ==> !Resolves(ok, k)
  {
    if count == 0 then 0
    else
      var k := FirstRejected(ok, count - 1);
      if k < count - 1 then k else if Resolves(ok, count - 1) then count else count - 1
  }

  /** The three properties of FirstRejected determine it. */
  lemma {:induction false} FirstRejectedIs(ok: seq<bool>, count: nat, k: nat)
    requires k <= count
    requires forall c :: 0 <= c < k ==> Resolves(ok, c)
    requires k < count ==> !Resolves(ok, k)
    ensures FirstRejected(ok, count) == k
  {
  }

  /** The calls processChunksSequentially makes: the scheduled ones, up to and including the first that rejects. */
  function Calls<T>(a: seq<T>, size: nat, ok: seq<bool>): seq<(seq<T>, nat)>
    requires size > 0
  {
    var s := Schedule(a, size, 0);
    var k := FirstRejected(ok, |s|);
    if k == |s| then s else s[..k + 1]
  }

  /** Calls that stop at a rejected one, all earlier ones resolved, are the calls made. */
  lemma CallsStopped<T>(a: seq<T>, size: nat, ok: seq<bool>, calls: seq<(seq<T>, nat)>)
    requires size > 0 && exists rest :: calls + rest == Schedule(a, size, 0)
    requires |calls| > 0 && forall c :: 0 <= c < |calls| - 1 ==> Resolves(ok, c)
    requires !Resolves(ok, |calls| - 1)
    ensures calls == Calls(a, size, ok)
    ensures FirstRejected(ok, |Schedule(a, size, 0)|) < |Schedule(a, size, 0)|
  {
    var rest :| calls + rest == Schedule(a, size, 0);
    assert calls == Schedule(a, size, 0)[..|calls|];
    FirstRejectedIs(ok, |Schedule(a, size, 0)|, |calls| - 1);
  }

  /** When every scheduled call resolves, all of them are made. */
  lemma CallsAll<T>(a: seq<T>, size: nat, ok: seq<bool>)
    requires size > 0
    requires forall c :: 0 <= c < |Schedule(a, size, 0)| ==> Resolves(ok, c)
    ensures Calls(a, size, ok) == Schedule(a, size, 0)
    ensures FirstRejected(ok, |Schedule(a, size, 0)|) == |Schedule(a, size, 0)|
  {
    FirstRejectedIs(ok, |Schedule(a, size, 0)|, |Schedule(a, size, 0)|);
  }

  /**
   * processChunksSequentially: one callback per slice, in order. Each call is awaited before the
   * next is made, and a call whose promise rejects ends the loop by its exception. ok lists, per
   * call, whether its promise resolves; completed says whether the loop ran to its end.
   */
  method ProcessChunksSequentially<T>(a: seq<T>, size: nat, ok: seq<bool>) returns (calls: seq<(seq<T>, nat)>, completed: bool)
    requires size > 0
    ensures calls == Calls(a, size, ok)
    ensures completed <==> FirstRejected(ok, |Schedule(a, size, 0)|) == |Schedule(a, size, 0)|
  {
    calls := [];
    var i: nat := 0;
    ghost var rest := Schedule(a, size, 0);
    while i < |a|
      invariant rest == Schedule(a, size, i) && calls + rest == Schedule(a, size, 0)
      invariant forall c :: 0 <= c < |calls| ==> Resolves(ok, c)
    {
      var call := (Slice(a, i, i + size), i);
      ScheduleStep(a, size, i);
      MoveFirst(calls, call, Schedule(a, size, i + size), Schedule(a, size, 0));
      calls, rest := calls + [call], Schedule(a, size, i + size);
      if !Resolves(ok, |calls| - 1) {
        CallsStopped(a, size, ok, calls);
        return calls, false;
      }
      i := i + size;
    }
    CallsAll(a, size, ok);
    completed := true;
  }

  /** Moving the first item of the remainder to the end of the prefix keeps the whole. */
  lemma MoveFirst<T>(prefix: seq<T>, x: T, rest: seq<T>, whole: seq<T>)
    requires prefix + ([x] + rest) == whole
    ensures (prefix + [x]) + rest == whole
  {
    assert prefix + ([x] + rest) == (prefix + [x]) + rest;
  }

  /** One call, then the rest of the schedule. */
  lemma ScheduleStep<T>(a: seq<T>, size: nat, i: nat)
    requires size > 0 && i < |a|
    ensures Schedule(a, size, i) == [(Slice(a, i, i + size), i)] + Schedule(a, size, i + size)
  {
  }

  /** processChunksSequentially makes one call per chunk. */
  lemma {:induction false} ScheduleLength<T>(a: seq<T>, size: nat, i: nat)
    requires size > 0 && i <= |a|
    decreases |a| - i
    ensures |Schedule(a, size, i)| == |Chunks(a[i..], size)|
  {
    if i < |a| {
      if i + size < |a| {
        ScheduleLength(a, size, i + size);
        assert a[i..][size..] == a[i + size..];
      } else {
        assert Schedule(a, size, i + size) == [];
      }
    }
  }

  /**
   * Call k receives chunk k together with the offset i + k * size of its first element:
   * an element offset, not a chunk number, except when size is 1.
   */
  lemma ScheduleFirst<T>(a: seq<T>, size: nat, i: nat)
    requires size > 0 && i < |a|
    ensures Schedule(a, size, i)[0] == (Chunks(a[i..], size)[0], i)
  {
    ChunkAtOffset(a[i..], size, 0);
    SliceShift(a, i, 0, size);
  }

  lemma {:induction false} ScheduleAt<T>(a: seq<T>, size: nat, i: nat, k: nat)
    requires size > 0 && i <= |a| && k < |Chunks(a[i..], size)|
    decreases k
    ensures k < |Schedule(a, size, i)|
    ensures Schedule(a, size, i)[k] == (Chunks(a[i..], size)[k], i + k * size)
  {
    ScheduleLength(a, size, i);
    if k == 0 {
      ScheduleFirst(a, size, i);
    } else {
      var rest := a[i..];
      assert |rest| > size;
      assert rest[size..] == a[i + size..];
      var later := Schedule(a, size, i + size);
      assert Schedule(a, size, i)[k] == later[k - 1];
      ScheduleAt(a, size, i + size, k - 1);
      assert Chunks(rest, size)[k] == Chunks(a[i + size..], size)[k - 1];
      OffsetStep(i, size, k);
    }
  }

  lemma OffsetStep(i: nat, size: nat, k: nat)
    requires k > 0
    ensures i + size + (k - 1) * size == i + k * size
  {
  }

  /** With chunk size 1, the calls made are [a[c]] with index c, for every c up to the first rejected call. */
  lemma UnitCalls<T>(a: seq<T>, ok: seq<bool>)
    ensures var k := FirstRejected(ok, |a|);
      |Calls(a, 1, ok)| == (if k == |a| then |a| else k + 1)
    ensures forall c :: 0 <= c < |Calls(a, 1, ok)| ==> Calls(a, 1, ok)[c] == ([a[c]], c)
  {
    if a == [] {
      assert Schedule(a, 1, 0) == [];
    } else {
      UnitSchedule(a, 0);
      forall c | 0 <= c < |Calls(a, 1, ok)| ensures Calls(a, 1, ok)[c] == ([a[c]], c) {
        UnitSchedule(a, c);
      }
    }
  }

  /** With chunk size 1, as translatePage calls it, call k receives [a[k]] and the index k. */
  lemma UnitSchedule<T>(a: seq<T>, k: nat)
    requires k < |a|
    ensures |Schedule(a, 1, 0)| == |a| && Schedule(a, 1, 0)[k] == ([a[k]], k)
  {
    ScheduleLength(a, 1, 0);
    ChunkCount(a, 1);
    assert a[0..] == a;
    assert |Chunks(a, 1)| * 1 == |Chunks(a, 1)|;
    ChunkAt(a, 1, k);
    ScheduleAt(a, 1, 0, k);
    assert k * 1 == k;
    assert Slice(a, k, k + 1) == [a[k]];
  }
}
