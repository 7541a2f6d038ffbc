/** Free lists threaded through the free slots themselves: each free slot's first word is the address of the next. */
module FreeList {

  /** The null pointer; slots are addressed from 0. */
  const NULL := -1

  ghost function Successor(free: seq<int>, i: int): int
    requires 0 <= i < |free|
  {
    if i + 1 < |free| then free[i + 1] else NULL
  }

  /** Following the links from `head` visits exactly the slots of `free`, in order, none twice. */
  ghost predicate Chain(words: seq<int>, head: int, free: seq<int>) {
    && head == (if free == [] then NULL else free[0])
    && (forall i :: 0 <= i < |free| ==> 0 <= free[i] < |words|)
    && (forall i {:trigger Successor(free, i)} :: 0 <= i < |free| ==> words[free[i]] == Successor(free, i))
    && (forall i, j :: 0 <= i < j < |free| ==> free[i] != free[j])
  }

  /** Every slot is either free or live, never both. */
  ghost predicate Partition(n: int, free: seq<int>, live: set<int>) {
    && (forall x :: x in live ==> 0 <= x < n && x !in free)
    && (forall x :: 0 <= x < n ==> x in free || x in live)
  }

  /** Every slot linked to the next, the last one to nothing. */
  lemma InitialChain(words: seq<int>, n: nat)
    requires |words| == n > 0 && words[n - 1] == NULL && forall k :: 0 <= k < n - 1 ==> words[k] == k + 1
    ensures Chain(words, 0, seq(n, i => i)) && Partition(n, seq(n, i => i), {})
  {
    var free := seq(n, i => i);
    forall x | 0 <= x < n ensures x in free {
      assert free[x] == x;
    }
  }

  lemma ChainPop(words: seq<int>, head: int, free: seq<int>, live: set<int>, junk: int)
    requires Chain(words, head, free) && Partition(|words|, free, live) && free != []
    ensures 0 <= head < |words| && head !in live
    ensures Chain(words[head := junk], words[head], free[1..])
    ensures Partition(|words|, free[1..], live + {head})
  {
    assert forall x :: x in free ==> x == head || x in free[1..];
    assert words[free[0]] == Successor(free, 0);
    var words', rest := words[head := junk], free[1..];
    forall i | 0 <= i < |rest| ensures 0 <= rest[i] < |words'| && words'[rest[i]] == Successor(rest, i) {
      assert rest[i] == free[i + 1] && words[free[i + 1]] == Successor(free, i + 1);
    }
  }

  lemma ChainPush(words: seq<int>, head: int, free: seq<int>, live: set<int>, x: int)
    requires Chain(words, head, free) && Partition(|words|, free, live) && x in live
    ensures Chain(words[x := head], x, [x] + free)
    ensures Partition(|words|, [x] + free, live - {x})
  {
    LinkFirst(words[x := head], words, head, free, x);
  }

  lemma LinkFirst(words': seq<int>, words: seq<int>, head: int, free: seq<int>, x: int)
    requires Chain(words, head, free) && x !in free && 0 <= x < |words'| && words'[x] == head && |words| <= |words'|
    requires forall i :: 0 <= i < |words| && i != x ==> words'[i] == words[i]
    ensures Chain(words', x, [x] + free)
  {
    var more := [x] + free;
    PushDistinct(free, x);
    forall i | 0 <= i < |more| ensures 0 <= more[i] < |words'| && words'[more[i]] == Successor(more, i) {
      if i > 0 {
        LinkKept(words', words, head, free, x, i - 1);
      }
    }
  }

  lemma PushDistinct(free: seq<int>, x: int)
    requires x !in free && forall i, j :: 0 <= i < j < |free| ==> free[i] != free[j]
    ensures forall i, j :: 0 <= i < j < |[x] + free| ==> ([x] + free)[i] != ([x] + free)[j]
  {
    var more := [x] + free;
    forall i, j | 0 <= i < j < |more| ensures more[i] != more[j] {
      assert more[j] == free[j - 1] && (i > 0 ==> more[i] == free[i - 1]);
    }
  }

  lemma LinkKept(words': seq<int>, words: seq<int>, head: int, free: seq<int>, x: int, i: int)
    requires Chain(words, head, free) && 0 <= i < |free| && |words| <= |words'|
    requires x !in free && forall k :: 0 <= k < |words| && k != x ==> words'[k] == words[k]
    ensures 0 <= free[i] < |words'| && free[i] != x && words'[free[i]] == Successor([x] + free, i + 1)
  {
    assert words[free[i]] == Successor(free, i);
  }

  /** Free and live slots together are all the slots. */
  lemma {:induction false} Conservation(n: nat, free: seq<int>, live: set<int>)
    requires Partition(n, free, live) && forall i :: 0 <= i < |free| ==> 0 <= free[i] < n
    requires forall i, j :: 0 <= i < j < |free| ==> free[i] != free[j]
    ensures |free| + |live| == n
    decreases |free|
  {
    if free == [] {
      AllSlots(n, live);
    } else {
      assert forall x :: x in free ==> x == free[0] || x in free[1..];
      Conservation(n, free[1..], live + {free[0]});
    }
  }

  lemma {:induction false} AllSlots(n: nat, live: set<int>)
    requires forall x :: x in live <==> 0 <= x < n
    ensures |live| == n
  {
    if n > 0 {
      AllSlots(n - 1, live - {n - 1});
    } else {
      assert forall x :: x !in live;
      assert live == {};
    }
  }
}

/** A pool of a fixed number of slots, allocated at once. */
module ObjectPools {
  import opened FreeList

  class ObjectPool {
    const poolSize: int
    /** The first word of every slot: its link while it is free, part of the object while it is live. */
    const buffer: array<int>
    var freeListHead: int
    ghost var free: seq<int>
    ghost var live: set<int>

    ghost predicate Valid()
      reads this, buffer
    {
      buffer.Length == poolSize && Chain(buffer[..], freeListHead, free) && Partition(poolSize, free, live)
    }

    /** `size - 1` is unsigned in the source, so there must be at least one slot. */
    constructor (size: int)
      requires size >= 1
      ensures Valid() && poolSize == size && live == {} && fresh(buffer)
      // The slots will be handed out in the order of their addresses.
      ensures |free| == size && forall k :: 0 <= k < size ==> free[k] == k
    {
      poolSize := size;
      buffer := new int[size];
      freeListHead := 0;
      live := {};
      free := seq(size, i => i);
      new;
      for i := 0 to size - 1
        invariant forall k :: 0 <= k < i ==> buffer[k] == k + 1
        invariant freeListHead == 0 && live == {} && free == seq(size, i => i)
      {
        buffer[i] := i + 1;
      }
      buffer[size - 1] := NULL;
      freeListHead := 0;
      InitialChain(buffer[..], size);
    }

    /** The slot handed out was not live; null comes back exactly when all are. The object overwrites the link. */
    method Allocate(content: int) returns (r: int)
      requires Valid()
      modifies this, buffer
      ensures Valid()
      ensures r == NULL <==> |old(live)| == poolSize
      ensures r == NULL ==> live == old(live) && free == old(free)
      ensures r != NULL ==> 0 <= r < poolSize && r !in old(live) && live == old(live) + {r}
      ensures r != NULL ==> old(free) == [r] + free && buffer[r] == content
      ensures forall x :: x in old(live) ==> 0 <= x < poolSize && buffer[x] == old(buffer[x])
    {
      Conservation(poolSize, free, live);
      if freeListHead == NULL {
        return NULL;
      }
      ChainPop(buffer[..], freeListHead, free, live, content);
      r := freeListHead;
      ghost var words := buffer[..];
      freeListHead := buffer[r];
      buffer[r] := content;
      assert buffer[..] == words[r := content];
      live, free := live + {r}, free[1..];
    }

    method Deallocate(obj: int)
      requires Valid() && (obj != NULL ==> obj in live)
      modifies this, buffer
      ensures Valid()
      ensures obj == NULL ==> live == old(live) && free == old(free)
      ensures obj != NULL ==> live == old(live) - {obj} && free == [obj] + old(free)
      ensures forall x :: x in live ==> 0 <= x < poolSize && buffer[x] == old(buffer[x])
    {
      if obj == NULL {
        return;
      }
      ChainPush(buffer[..], freeListHead, free, live, obj);
      ghost var words := buffer[..];
      buffer[obj] := freeListHead;
      assert buffer[..] == words[obj := freeListHead];
      freeListHead := obj;
      live, free := live - {obj}, [obj] + free;
    }
  }
}

/** A pool that grows by blocks of 1024 slots; slot `i` of block `b` has address `1024 * b + i`. */
module FixedSizePools {
  import opened FreeList

  const BATCH_SIZE := 1024

  /** The list starts with the `n` addresses below `top`, the highest first. */
  ghost predicate Downwards(free: seq<int>, top: int, n: nat) {
    n <= |free| && forall k :: 0 <= k < n ==> free[k] == top - 1 - k
  }

  lemma DownwardsOne(free: seq<int>, top: int, n: nat)
    requires Downwards(free, top, n)
    ensures Downwards([top] + free, top + 1, n + 1) && ([top] + free)[n + 1..] == free[n..]
    ensures n > 0 ==> free[0] == top - 1 && Downwards(free[1..], top - 1, n - 1)
  {
  }

  class FixedSizeMemoryPool {
    var freeListHead: int
    var blocks: int
    /** The first word of every slot of every block. */
    var words: seq<int>
    ghost var free: seq<int>
    ghost var live: set<int>

    ghost predicate Valid()
      reads this
    {
      |words| == blocks * BATCH_SIZE && Chain(words, freeListHead, free) && Partition(|words|, free, live)
    }

    constructor ()
      ensures Valid() && blocks == 0 && live == {}
    {
      freeListHead := NULL;
      blocks := 0;
      words := [];
      free, live := [], {};
    }

    /**
     * `mallocOk` tells whether the system has memory for another block; without it the source throws and leaves the
     * pool as it was. A slot that is handed out was not live.
     */
    method Allocate(content: int, mallocOk: bool) returns (r: int)
      requires Valid()
      modifies this
      ensures Valid()
      ensures r == NULL <==> |old(live)| == old(|words|) && !mallocOk
      ensures r == NULL ==> live == old(live) && free == old(free) && words == old(words)
      ensures r != NULL ==> 0 <= r < |words| && r !in old(live) && live == old(live) + {r}
      ensures r != NULL ==> r == (if old(free) != [] then old(free)[0] else old(|words|) + 1023) && words[r] == content
      ensures old(free) != [] ==> free == old(free)[1..]
      ensures old(free) == [] && mallocOk ==> |free| == 1023 && Downwards(free, r, 1023)
      ensures blocks == old(blocks) + (if |old(live)| == old(|words|) && mallocOk then 1 else 0)
      ensures forall x :: x in old(live) ==> 0 <= x < old(|words|) <= |words| && words[x] == old(words[x])
    {
      Conservation(|words|, free, live);
      if freeListHead == NULL {
        var ok := ExpandPool(mallocOk);
        if !ok {
          return NULL;
        }
        DownwardsOne(free, |words|, 1024);
      }
      ChainPop(words, freeListHead, free, live, content);
      r := freeListHead;
      freeListHead := words[r];
      words := words[r := content];
      live, free := live + {r}, free[1..];
    }

    method Deallocate(obj: int)
      requires Valid() && (obj != NULL ==> obj in live)
      modifies this
      ensures Valid() && blocks == old(blocks)
      ensures obj == NULL ==> live == old(live) && free == old(free)
      ensures obj != NULL ==> live == old(live) - {obj} && free == [obj] + old(free)
      ensures forall x :: x in live ==> 0 <= x < |words| == old(|words|) && words[x] == old(words[x])
    {
      if obj == NULL {
        return;
      }
      ChainPush(words, freeListHead, free, live, obj);
      words := words[obj := freeListHead];
      freeListHead := obj;
      live, free := live - {obj}, [obj] + free;
    }

    /** Pushes the slots of a new block onto the free list, first slot first; so the last one is handed out first. */
    method ExpandPool(mallocOk: bool) returns (ok: bool)
      requires Valid()
      modifies this
      ensures Valid() && ok == mallocOk && live == old(live)
      ensures !ok ==> words == old(words) && free == old(free)
      ensures !ok ==> blocks == old(blocks) && freeListHead == old(freeListHead)
      ensures ok ==> blocks == old(blocks) + 1 && old(words) <= words
      ensures ok ==> |words| == |old(words)| + 1024 && Downwards(free, |words|, 1024) && free[1024..] == old(free)
    {
      hide Chain, Partition;
      if !mallocOk {
        return false;
      }
      ghost var before := words;
      for i := 0 to BATCH_SIZE
        invariant |words| == |before| + i && before <= words
        invariant Chain(words, freeListHead, free) && Partition(|words|, free, live)
        invariant live == old(live) && blocks == old(blocks)
        invariant Downwards(free, |words|, i) && free[i..] == old(free)
      {
        ChainGrow(words, freeListHead, free, live);
        var block := |words|;
        words := words + [freeListHead];
        freeListHead := block;
        DownwardsOne(free, block, i);
        free := [block] + free;
      }
      blocks := blocks + 1;
      return true;
    }
  }

  lemma ChainGrow(words: seq<int>, head: int, free: seq<int>, live: set<int>)
    requires Chain(words, head, free) && Partition(|words|, free, live)
    ensures Chain(words + [head], |words|, [|words|] + free)
    ensures Partition(|words| + 1, [|words|] + free, live)
  {
    LinkFirst(words + [head], words, head, free, |words|);
  }
}
