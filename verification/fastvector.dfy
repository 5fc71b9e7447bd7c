/** The copy-on-write small-buffer word vector `fast_vector`.

    A vector of at most four words keeps them in an inline array; a longer
    one points at a heap allocation shared through a reference count, so
    copying a vector shares the allocation and a vector must own its
    allocation alone before it writes. The model keeps every vector and
    every live allocation in one `Pool`: vectors are named by their index in
    the pool, allocations by a number, and each allocation records how many
    vectors hold it (the `shared_ptr` use count).
 */
module FastVectors {
  import opened Words
  import opened Results

  /** `SMALL_SIZE`: the length of the inline array. */
  const SMALL_SIZE: nat := 4

  /** A heap allocation: its words (as many as its capacity) and the number
      of vectors holding it. */
  datatype Alloc = Alloc(words: seq<Word>, owners: nat)

  /** Where a vector's words live: the inline array, or allocation `id`. */
  datatype Storage = Inline(small: seq<Word>) | Heap(id: nat)

  /** A `fast_vector`: its size and its storage. */
  datatype Vec = Vec(size: nat, storage: Storage)

  /** All vectors, the live allocations, and the next unused allocation id. */
  datatype Pool = Pool(vecs: seq<Vec>, heap: map<nat, Alloc>, nextId: nat)

  /** What can go wrong in `push_back` as written. */
  datatype VecError = WritePastCapacity

  // ---------------------------------------------------------------------------
  // Reference counts and the pool invariant

  /** 1 when v holds allocation id, else 0. */
  function Holds(v: Vec, id: nat): nat
  {
    if v.storage == Heap(id) then 1 else 0
  }

  /** The number of vectors holding allocation id. */
  function Count(vecs: seq<Vec>, id: nat): nat
  {
    if |vecs| == 0 then 0 else Count(vecs[..|vecs| - 1], id) + Holds(vecs[|vecs| - 1], id)
  }

  /** A vector's own invariant: an inline array is four words and holds the
      size; an allocation is live and holds the size. */
  predicate VecValid(heap: map<nat, Alloc>, nextId: nat, v: Vec)
  {
    match v.storage
    case Inline(small) => |small| == SMALL_SIZE && v.size <= SMALL_SIZE
    case Heap(id) => id in heap && id < nextId && v.size <= |heap[id].words|
  }

  /** The pool invariant: every vector is valid, and every live allocation
      is held by exactly as many vectors as its count says, at least one. */
  predicate Valid(p: Pool)
  {
    && (forall v :: 0 <= v < |p.vecs| ==> VecValid(p.heap, p.nextId, p.vecs[v]))
    && (forall id :: id in p.heap ==> id < p.nextId && 0 < p.heap[id].owners == Count(p.vecs, id))
  }

  /** Vector v names a vector of p. */
  predicate Live(p: Pool, v: nat)
  {
    Valid(p) && v < |p.vecs|
  }

  /** The words v can address: the inline array or its allocation. */
  function Buffer(p: Pool, v: nat): seq<Word>
    requires Live(p, v)
  {
    match p.vecs[v].storage
    case Inline(small) => small
    case Heap(id) => p.heap[id].words
  }

  /** `get_capacity`. */
  function Capacity(p: Pool, v: nat): (c: nat)
    requires Live(p, v)
    ensures !IsBig(p, v) ==> c == SMALL_SIZE
    ensures IsBig(p, v) ==> c == |p.heap[p.vecs[v].storage.id].words|
    ensures Size(p, v) <= c
  {
    |Buffer(p, v)|
  }

  /** `is_big`: the words are not in the inline array. */
  predicate IsBig(p: Pool, v: nat): (b: bool)
    requires Live(p, v)
    ensures b ==> p.vecs[v].storage.Heap? && p.vecs[v].storage.id in p.heap
    ensures !b ==> Size(p, v) <= SMALL_SIZE
  {
    p.vecs[v].storage.Heap?
  }

  /** `size`. */
  function Size(p: Pool, v: nat): (s: nat)
    requires Live(p, v)
    ensures s <= |Buffer(p, v)|
  {
    p.vecs[v].size
  }

  /** The sequence of words v stands for. */
  function Contents(p: Pool, v: nat): (r: seq<Word>)
    requires Live(p, v)
    ensures |r| == Size(p, v) <= Capacity(p, v)
  {
    Buffer(p, v)[..p.vecs[v].size]
  }

  /** `is_big() && !ptr.unique()`: v holds an allocation other vectors hold too. */
  predicate Shared(p: Pool, v: nat)
    requires Live(p, v)
  {
    match p.vecs[v].storage
    case Inline(_) => false
    case Heap(id) => p.heap[id].owners != 1
  }

  /** Every vector of p outside `except` still exists in q with the same
      contents. */
  predicate OthersUnchanged(p: Pool, q: Pool, except: set<nat>)
  {
    && Valid(p) && Valid(q) && |p.vecs| <= |q.vecs|
    && forall u :: 0 <= u < |p.vecs| && u !in except ==> Contents(q, u) == Contents(p, u)
  }

  lemma {:induction false} CountAppend(vecs: seq<Vec>, x: Vec, id: nat)
    ensures Count(vecs + [x], id) == Count(vecs, id) + Holds(x, id)
  {
    assert (vecs + [x])[..|vecs|] == vecs;
  }

  /** Replacing one vector changes each count by what it held and holds. */
  lemma {:induction false} CountUpdate(vecs: seq<Vec>, i: nat, x: Vec, id: nat)
    requires i < |vecs|
    ensures Count(vecs[i := x], id) == Count(vecs, id) - Holds(vecs[i], id) + Holds(x, id)
    decreases |vecs|
  {
    var n := |vecs| - 1;
    if i < n {
      assert vecs[i := x][..n] == vecs[..n][i := x];
      CountUpdate(vecs[..n], i, x, id);
    } else {
      assert vecs[i := x][..n] == vecs[..n];
    }
  }

  /** A vector holding id is counted. */
  lemma {:induction false} CountHolder(vecs: seq<Vec>, i: nat, id: nat)
    requires i < |vecs| && vecs[i].storage == Heap(id)
    ensures Count(vecs, id) >= 1
    decreases |vecs|
  {
    var n := |vecs| - 1;
    if i < n {
      CountHolder(vecs[..n], i, id);
    }
  }

  /** With a count of one, the holder is the only one. */
  lemma {:induction false} CountOne(vecs: seq<Vec>, i: nat, j: nat, id: nat)
    requires i < |vecs| && j < |vecs| && i != j
    requires vecs[i].storage == Heap(id) && Count(vecs, id) == 1
    ensures vecs[j].storage != Heap(id)
  {
    if vecs[j].storage == Heap(id) {
      CountUpdate(vecs, i, Vec(0, Inline([])), id);
      assert vecs[i := Vec(0, Inline([]))][j] == vecs[j];
      CountHolder(vecs[i := Vec(0, Inline([]))], j, id);
    }
  }

  /** No vector holds an allocation id at or past nextId. */
  lemma {:induction false} CountNone(vecs: seq<Vec>, id: nat)
    requires forall u :: 0 <= u < |vecs| ==> vecs[u].storage != Heap(id)
    ensures Count(vecs, id) == 0
    decreases |vecs|
  {
    if |vecs| > 0 {
      CountNone(vecs[..|vecs| - 1], id);
    }
  }

  // ---------------------------------------------------------------------------
  // Primitive changes to the pool

  /** One owner lets go of allocation id; the last one frees it. */
  function Release(heap: map<nat, Alloc>, id: nat): (r: map<nat, Alloc>)
    requires id in heap
    ensures forall j :: j in r ==> j in heap && r[j].words == heap[j].words
    ensures forall j :: j in heap && j != id ==> j in r && r[j] == heap[j]
    ensures id in r <==> heap[id].owners > 1
    ensures id in r ==> r[id].owners == heap[id].owners - 1
  {
    if heap[id].owners <= 1 then heap - {id}
    else heap[id := Alloc(heap[id].words, heap[id].owners - 1)]
  }

  /** What v held before it is given other storage. */
  function Detach(p: Pool, v: nat): map<nat, Alloc>
    requires Live(p, v)
  {
    match p.vecs[v].storage
    case Inline(_) => p.heap
    case Heap(held) => Release(p.heap, held)
  }

  /** Gives v a new allocation of its own holding words, with size n; the
      allocation v held before, if any, loses an owner and is freed with its
      last one. This is `make_big` from inline storage and `ptr.reset` of
      `set_capacity` and `prepare_to_new` from heap storage. */
  function Rebind(p: Pool, v: nat, words: seq<Word>, n: nat): (q: Pool)
    requires Live(p, v) && n <= |words|
    ensures Live(q, v) && |q.vecs| == |p.vecs|
    ensures Buffer(q, v) == words && Size(q, v) == n && IsBig(q, v) && !Shared(q, v)
    ensures OthersUnchanged(p, q, {v})
  {
    var id := p.nextId;
    var q := Pool(p.vecs[v := Vec(n, Heap(id))], Detach(p, v)[id := Alloc(words, 1)], id + 1);
    RebindValid(p, v, words, n, q);
    q
  }

  lemma {:induction false} RebindValid(p: Pool, v: nat, words: seq<Word>, n: nat, q: Pool)
    requires Live(p, v) && n <= |words|
    requires q == Pool(p.vecs[v := Vec(n, Heap(p.nextId))], Detach(p, v)[p.nextId := Alloc(words, 1)], p.nextId + 1)
    ensures Valid(q)
    ensures forall u :: 0 <= u < |p.vecs| && u != v ==> q.vecs[u] == p.vecs[u] && Buffer(q, u) == Buffer(p, u)
  {
    var id := p.nextId;
    var x := Vec(n, Heap(id));
    forall u | 0 <= u < |p.vecs| && u != v
      ensures VecValid(q.heap, q.nextId, q.vecs[u])
      ensures q.vecs[u].storage.Heap? ==> q.vecs[u].storage.id in q.heap
      ensures q.vecs[u].storage.Heap? ==> q.heap[q.vecs[u].storage.id].words == p.heap[q.vecs[u].storage.id].words
    {
      assert VecValid(p.heap, p.nextId, p.vecs[u]);
      if p.vecs[u].storage.Heap? && p.vecs[v].storage == p.vecs[u].storage {
        var held := p.vecs[u].storage.id;
        if p.heap[held].owners == 1 {
          CountOne(p.vecs, v, u, held);
        }
      }
    }
    assert Valid(q) by {
      assert VecValid(q.heap, q.nextId, q.vecs[v]);
      forall j | j in q.heap
        ensures j < q.nextId && 0 < q.heap[j].owners == Count(q.vecs, j)
      {
        CountUpdate(p.vecs, v, x, j);
        if j == id {
          forall u | 0 <= u < |p.vecs|
            ensures p.vecs[u].storage != Heap(id)
          {
            assert VecValid(p.heap, p.nextId, p.vecs[u]);
          }
          CountNone(p.vecs, id);
        }
      }
    }
  }

  /** Overwrites the words v addresses (its inline array, or its allocation
      as every holder sees it). */
  function Store(p: Pool, v: nat, words: seq<Word>): (q: Pool)
    requires Live(p, v) && |words| == Capacity(p, v)
    ensures Live(q, v) && |q.vecs| == |p.vecs| && q.nextId == p.nextId
    ensures Buffer(q, v) == words && Size(q, v) == Size(p, v)
    ensures IsBig(q, v) == IsBig(p, v) && Shared(q, v) == Shared(p, v)
    ensures !Shared(p, v) ==> OthersUnchanged(p, q, {v})
    ensures forall u :: 0 <= u < |p.vecs| && u != v ==> q.vecs[u] == p.vecs[u]
    ensures forall u :: 0 <= u < |p.vecs| && u != v ==>
      Buffer(q, u) == if IsBig(p, v) && p.vecs[u].storage == p.vecs[v].storage then words else Buffer(p, u)
  {
    var x := p.vecs[v];
    var q := match x.storage
      case Inline(_) => Pool(p.vecs[v := Vec(x.size, Inline(words))], p.heap, p.nextId)
      case Heap(id) => Pool(p.vecs, p.heap[id := Alloc(words, p.heap[id].owners)], p.nextId);
    StoreValid(p, v, words, q);
    q
  }

  lemma {:induction false} StoreValid(p: Pool, v: nat, words: seq<Word>, q: Pool)
    requires Live(p, v) && |words| == Capacity(p, v)
    requires q == match p.vecs[v].storage
      case Inline(_) => Pool(p.vecs[v := Vec(p.vecs[v].size, Inline(words))], p.heap, p.nextId)
      case Heap(id) => Pool(p.vecs, p.heap[id := Alloc(words, p.heap[id].owners)], p.nextId)
    ensures Valid(q)
    ensures forall u :: 0 <= u < |p.vecs| && u != v ==> q.vecs[u] == p.vecs[u]
    ensures forall u :: 0 <= u < |p.vecs| && u != v ==>
      Buffer(q, u) == if IsBig(p, v) && p.vecs[u].storage == p.vecs[v].storage then words else Buffer(p, u)
    ensures !Shared(p, v) ==> forall u :: 0 <= u < |p.vecs| && u != v && IsBig(p, v) ==> p.vecs[u].storage != p.vecs[v].storage
  {
    var x := p.vecs[v];
    forall u | 0 <= u < |p.vecs|
      ensures VecValid(q.heap, q.nextId, q.vecs[u])
    {
      assert VecValid(p.heap, p.nextId, p.vecs[u]);
    }
    if x.storage.Inline? {
      forall j | j in q.heap
        ensures Count(q.vecs, j) == Count(p.vecs, j)
      {
        CountUpdate(p.vecs, v, q.vecs[v], j);
      }
    }
    if !Shared(p, v) && x.storage.Heap? {
      forall u | 0 <= u < |p.vecs| && u != v
        ensures p.vecs[u].storage != x.storage
      {
        if p.vecs[u].storage == x.storage {
          CountOne(p.vecs, v, u, x.storage.id);
        }
      }
    }
  }

  /** Sets the size of v, within its capacity (`_size++`, `_size--`). */
  function Resize(p: Pool, v: nat, n: nat): (q: Pool)
    requires Live(p, v) && n <= Capacity(p, v)
    ensures Live(q, v) && |q.vecs| == |p.vecs| && q.heap == p.heap
    ensures Buffer(q, v) == Buffer(p, v) && Size(q, v) == n
    ensures IsBig(q, v) == IsBig(p, v) && Shared(q, v) == Shared(p, v)
    ensures OthersUnchanged(p, q, {v})
    ensures forall u :: 0 <= u < |p.vecs| && u != v ==> q.vecs[u] == p.vecs[u]
  {
    var q := Pool(p.vecs[v := Vec(n, p.vecs[v].storage)], p.heap, p.nextId);
    ResizeValid(p, v, n, q);
    q
  }

  lemma {:induction false} ResizeValid(p: Pool, v: nat, n: nat, q: Pool)
    requires Live(p, v) && n <= Capacity(p, v)
    requires q == Pool(p.vecs[v := Vec(n, p.vecs[v].storage)], p.heap, p.nextId)
    ensures Valid(q)
  {
    forall u | 0 <= u < |p.vecs|
      ensures VecValid(q.heap, q.nextId, q.vecs[u])
    {
      assert VecValid(p.heap, p.nextId, p.vecs[u]);
    }
    forall j | j in q.heap
      ensures Count(q.vecs, j) == Count(p.vecs, j)
    {
      CountUpdate(p.vecs, v, q.vecs[v], j);
    }
  }

  // ---------------------------------------------------------------------------
  // Capacity growth and buffer copies

  /** `get_new_capacity`: 4 for an empty vector, otherwise half as much
      again, rounded down. */
  function NewCapacity(n: nat): (r: nat)
    ensures n == 0 ==> r == SMALL_SIZE
    ensures n > 0 ==> 2 * r <= 3 * n < 2 * r + 2
  {
    if n == 0 then 4 else (n * 3) / 2
  }

  /** The new capacity exceeds the size for every size but 1. */
  lemma NewCapacityGrows(n: nat)
    ensures NewCapacity(n) > n <==> n != 1
  {
  }

  /** `copy_data`: a buffer of cap words, the first cnt copied from src,
      the rest zero. */
  function CopyData(src: seq<Word>, cnt: nat, cap: nat): (r: seq<Word>)
    requires cnt <= cap && cnt <= |src|
    ensures |r| == cap && r[..cnt] == src[..cnt]
    ensures forall k :: cnt <= k < cap ==> r[k] == 0
  {
    src[..cnt] + seq(cap - cnt, _ => 0)
  }

  // ---------------------------------------------------------------------------
  // Construction

  /** A pool after a constructor: the pool and the new vector. */
  datatype Made = Made(pool: Pool, v: nat)

  /** A pool with no vectors and no allocations. */
  function EmptyPool(): (p: Pool)
    ensures Valid(p) && |p.vecs| == 0
  {
    Pool([], map[], 0)
  }

  /** The default constructor: size 0, inline, the array zeroed. */
  function NewVector(p: Pool): (r: Made)
    requires Valid(p)
    ensures Live(r.pool, r.v) && r.v == |p.vecs| && |r.pool.vecs| == |p.vecs| + 1
    ensures Contents(r.pool, r.v) == [] && !IsBig(r.pool, r.v) && Capacity(r.pool, r.v) == SMALL_SIZE
    ensures OthersUnchanged(p, r.pool, {})
  {
    var x := Vec(0, Inline(seq(SMALL_SIZE, _ => 0)));
    var q := Pool(p.vecs + [x], p.heap, p.nextId);
    AppendValid(p, x, q);
    Made(q, |p.vecs|)
  }

  lemma {:induction false} AppendValid(p: Pool, x: Vec, q: Pool)
    requires Valid(p) && VecValid(p.heap, p.nextId, x) && x.storage.Inline?
    requires q == Pool(p.vecs + [x], p.heap, p.nextId)
    ensures Valid(q)
    ensures forall u :: 0 <= u < |p.vecs| ==> q.vecs[u] == p.vecs[u]
  {
    forall j | j in q.heap
      ensures Count(q.vecs, j) == Count(p.vecs, j)
    {
      CountAppend(p.vecs, x, j);
    }
  }

  /** `set_capacity`, called with a capacity that holds the size: heap
      storage, or an inline vector asked for more than four words, moves to
      a new allocation of exactly cap words holding the contents followed by
      zeros; an inline vector asked for at most four words stays as it is. */
  function SetCapacity(p: Pool, v: nat, cap: nat): (q: Pool)
    requires Live(p, v) && Size(p, v) <= cap
    ensures Live(q, v) && |q.vecs| == |p.vecs|
    ensures Contents(q, v) == Contents(p, v)
    ensures IsBig(p, v) || cap > SMALL_SIZE ==> IsBig(q, v) && !Shared(q, v) && Capacity(q, v) == cap
    ensures IsBig(p, v) || cap > SMALL_SIZE ==> forall k :: Size(p, v) <= k < cap ==> Buffer(q, v)[k] == 0
    ensures !IsBig(p, v) && cap <= SMALL_SIZE ==> q == p
    ensures OthersUnchanged(p, q, {v})
  {
    if IsBig(p, v) || cap > SMALL_SIZE then
      Rebind(p, v, CopyData(Buffer(p, v), Size(p, v), cap), Size(p, v))
    else
      p
  }

  /** `reserve`: grows the capacity to cap when it is smaller, never
      shrinks it, and keeps the contents. */
  function Reserve(p: Pool, v: nat, cap: nat): (q: Pool)
    requires Live(p, v)
    ensures Live(q, v) && |q.vecs| == |p.vecs|
    ensures Contents(q, v) == Contents(p, v)
    ensures Capacity(q, v) == if cap > Capacity(p, v) then cap else Capacity(p, v)
    ensures cap > Capacity(p, v) ==> IsBig(q, v) && !Shared(q, v)
    ensures cap <= Capacity(p, v) ==> q == p
    ensures OthersUnchanged(p, q, {v})
  {
    if cap > Capacity(p, v) then SetCapacity(p, v, cap) else p
  }

  /** The second half of `fast_vector(n)`: zero the first n words of the
      buffer and make n the size. */
  function ZeroFill(p: Pool, v: nat, n: nat): (q: Pool)
    requires Live(p, v) && n <= Capacity(p, v)
    ensures Live(q, v) && |q.vecs| == |p.vecs|
    ensures Contents(q, v) == Zeros(n)
    ensures IsBig(q, v) == IsBig(p, v) && Shared(q, v) == Shared(p, v)
    ensures !Shared(p, v) ==> OthersUnchanged(p, q, {v})
  {
    var zeroed := Zeros(n) + Buffer(p, v)[n..];
    var q := Resize(Store(p, v, zeroed), v, n);
    assert Contents(q, v) == zeroed[..n];
    q
  }

  /** Unchanged-elsewhere composes. */
  lemma OthersTrans(p: Pool, q: Pool, r: Pool, e1: set<nat>, e2: set<nat>)
    requires OthersUnchanged(p, q, e1) && OthersUnchanged(q, r, e2)
    ensures OthersUnchanged(p, r, e1 + e2)
  {
  }

  /** `fast_vector(n)`: n zero words, inline exactly when n is at most 4. */
  function NewSized(p: Pool, n: nat): (r: Made)
    requires Valid(p)
    ensures Live(r.pool, r.v) && r.v == |p.vecs| && |r.pool.vecs| == |p.vecs| + 1
    ensures Contents(r.pool, r.v) == Zeros(n)
    ensures IsBig(r.pool, r.v) <==> n > SMALL_SIZE
    ensures !Shared(r.pool, r.v)
    ensures OthersUnchanged(p, r.pool, {})
  {
    var made := NewVector(p);
    var p1 := Reserve(made.pool, made.v, n);
    var q := ZeroFill(p1, made.v, n);
    OthersTrans(made.pool, p1, q, {made.v}, {made.v});
    OthersTrans(p, made.pool, q, {}, {made.v});
    Made(q, made.v)
  }

  /** The copy constructor: the same size and contents; an allocation is
      shared (its count goes up), an inline array is copied. */
  function Copy(p: Pool, v: nat): (r: Made)
    requires Live(p, v)
    ensures Live(r.pool, r.v) && r.v == |p.vecs| && |r.pool.vecs| == |p.vecs| + 1
    ensures Contents(r.pool, r.v) == Contents(p, v)
    ensures IsBig(r.pool, r.v) == IsBig(p, v)
    ensures IsBig(p, v) ==> r.pool.vecs[r.v].storage == p.vecs[v].storage && Shared(r.pool, r.v)
    ensures OthersUnchanged(p, r.pool, {})
  {
    var x := p.vecs[v];
    match x.storage
    case Inline(small) =>
      var q := Pool(p.vecs + [Vec(x.size, Inline(small))], p.heap, p.nextId);
      AppendValid(p, Vec(x.size, Inline(small)), q);
      Made(q, |p.vecs|)
    case Heap(id) =>
      var q := Pool(p.vecs + [x], p.heap[id := Alloc(p.heap[id].words, p.heap[id].owners + 1)], p.nextId);
      ShareValid(p, v, q);
      Made(q, |p.vecs|)
  }

  lemma {:induction false} ShareValid(p: Pool, v: nat, q: Pool)
    requires Live(p, v) && p.vecs[v].storage.Heap?
    requires var id := p.vecs[v].storage.id;
      q == Pool(p.vecs + [p.vecs[v]], p.heap[id := Alloc(p.heap[id].words, p.heap[id].owners + 1)], p.nextId)
    ensures Valid(q)
    ensures forall u :: 0 <= u < |p.vecs| ==> q.vecs[u] == p.vecs[u] && Buffer(q, u) == Buffer(p, u)
  {
    var id := p.vecs[v].storage.id;
    forall u | 0 <= u < |q.vecs|
      ensures VecValid(q.heap, q.nextId, q.vecs[u])
    {
      if u < |p.vecs| {
        assert VecValid(p.heap, p.nextId, p.vecs[u]);
      } else {
        assert VecValid(p.heap, p.nextId, p.vecs[v]);
      }
    }
    forall j | j in q.heap
      ensures 0 < q.heap[j].owners == Count(q.vecs, j)
    {
      CountAppend(p.vecs, p.vecs[v], j);
    }
  }

  // ---------------------------------------------------------------------------
  // Element access and comparison

  /** `prepare_to_new`: a vector sharing its allocation takes a private copy
      of exactly its size; any other vector is left alone. */
  function PrepareToNew(p: Pool, v: nat): (q: Pool)
    requires Live(p, v)
    ensures Live(q, v) && |q.vecs| == |p.vecs|
    ensures Contents(q, v) == Contents(p, v) && !Shared(q, v) && IsBig(q, v) == IsBig(p, v)
    ensures Shared(p, v) ==> Capacity(q, v) == Size(p, v)
    ensures !Shared(p, v) ==> q == p
    ensures OthersUnchanged(p, q, {v})
  {
    if Shared(p, v) then
      Rebind(p, v, CopyData(Buffer(p, v), Size(p, v), Size(p, v)), Size(p, v))
    else
      p
  }

  /** `operator[] const`. */
  function Get(p: Pool, v: nat, i: nat): (r: Word)
    requires Live(p, v) && i < Size(p, v)
    ensures r == Contents(p, v)[i]
  {
    Buffer(p, v)[i]
  }

  /** A write through `operator[]`, which asserts that v does not share its
      allocation: only element i of v changes. */
  function Set(p: Pool, v: nat, i: nat, w: Word): (q: Pool)
    requires Live(p, v) && i < Size(p, v) && !Shared(p, v)
    ensures Live(q, v) && |q.vecs| == |p.vecs|
    ensures Contents(q, v) == Contents(p, v)[i := w]
    ensures IsBig(q, v) == IsBig(p, v) && !Shared(q, v)
    ensures OthersUnchanged(p, q, {v})
  {
    var q := Store(p, v, Buffer(p, v)[i := w]);
    assert Contents(q, v) == Contents(p, v)[i := w];
    q
  }

  /** `memcmp(x, y, n) == 0`: the first n words agree. */
  function WordsEqual(x: seq<Word>, y: seq<Word>, n: nat): (r: bool)
    requires n <= |x| && n <= |y|
    ensures r <==> x[..n] == y[..n]
  {
    if n == 0 then true
    else
      var r := x[n - 1] == y[n - 1] && WordsEqual(x, y, n - 1);
      assert x[..n] == x[..n - 1] + [x[n - 1]] && y[..n] == y[..n - 1] + [y[n - 1]];
      r
  }

  /** `operator==`: equal sizes, then equal words. */
  function Equal(p: Pool, a: nat, b: nat): (r: bool)
    requires Live(p, a) && Live(p, b)
    ensures r <==> Contents(p, a) == Contents(p, b)
  {
    if Size(p, a) != Size(p, b) then false
    else WordsEqual(Buffer(p, a), Buffer(p, b), Size(p, a))
  }

  /** `is_empty`. */
  function IsEmpty(p: Pool, v: nat): (r: bool)
    requires Live(p, v)
    ensures r <==> Contents(p, v) == []
  {
    Size(p, v) == 0
  }

  // ---------------------------------------------------------------------------
  // push_back, pop_back, back

  /** The last two lines of `push_back`: write element `size` (into the
      shared words when v shares its allocation) and count it. */
  function Append(p: Pool, v: nat, w: Word): (q: Pool)
    requires Live(p, v) && Size(p, v) < Capacity(p, v)
    ensures Live(q, v) && |q.vecs| == |p.vecs|
    ensures Contents(q, v) == Contents(p, v) + [w]
    ensures IsBig(q, v) == IsBig(p, v) && Shared(q, v) == Shared(p, v)
    ensures Capacity(q, v) == Capacity(p, v)
    ensures !Shared(p, v) ==> OthersUnchanged(p, q, {v})
    ensures forall u :: 0 <= u < |p.vecs| && u != v ==> q.vecs[u] == p.vecs[u]
    ensures forall u :: 0 <= u < |p.vecs| && u != v && IsBig(p, v) && p.vecs[u].storage == p.vecs[v].storage ==>
      Buffer(q, u) == Buffer(p, v)[Size(p, v) := w]
  {
    var n := Size(p, v);
    var p1 := Store(p, v, Buffer(p, v)[n := w]);
    var q := Resize(p1, v, n + 1);
    assert Contents(q, v) == Contents(p, v) + [w];
    assert !Shared(p, v) ==> OthersUnchanged(p, q, {v}) by {
      if !Shared(p, v) {
        OthersTrans(p, p1, q, {v}, {v});
      }
    }
    q
  }

  /** The growth step of `push_back` as written: a full vector reserves
      `get_new_capacity(size)`, which leaves a full vector of capacity 1
      full. */
  function GrowAsWritten(p: Pool, v: nat): (q: Pool)
    requires Live(p, v)
    ensures Live(q, v) && |q.vecs| == |p.vecs|
    ensures Contents(q, v) == Contents(p, v)
    ensures Size(q, v) < Capacity(q, v) <==> !(Size(p, v) == 1 && Capacity(p, v) == 1)
    ensures Size(p, v) < Capacity(p, v) ==> q == p
    ensures Size(p, v) == Capacity(p, v) ==> OthersUnchanged(p, q, {v})
    ensures Size(p, v) == Capacity(p, v) && Size(q, v) < Capacity(q, v) ==> !Shared(q, v)
    ensures Size(p, v) == Capacity(p, v) ==> Capacity(q, v) == NewCapacity(Size(p, v))
  {
    var n := Size(p, v);
    NewCapacityGrows(n);
    if Capacity(p, v) < n + 1 then Reserve(p, v, NewCapacity(n)) else p
  }

  /** `push_back` as written: when full it reserves `get_new_capacity(size)`
      and then writes element `size` without `prepare_to_new`. Growth from
      size 1 asks for capacity 1, so a full vector of capacity 1 (a private
      copy `prepare_to_new` made of a one-word shared vector) would be
      written past its end; that write is the error. A vector that shares
      its allocation and has room writes into the shared words. */
  function PushBackAsWritten(p: Pool, v: nat, w: Word): (r: Result<Pool, VecError>)
    requires Live(p, v)
    ensures r.Failure? <==> Size(p, v) == 1 && Capacity(p, v) == 1
    ensures r.Success? ==> Live(r.value, v) && |r.value.vecs| == |p.vecs|
    ensures r.Success? ==> Contents(r.value, v) == Contents(p, v) + [w]
    ensures r.Success? && Size(p, v) == Capacity(p, v) ==> Capacity(r.value, v) == NewCapacity(Size(p, v))
    ensures r.Success? && (!Shared(p, v) || Size(p, v) == Capacity(p, v)) ==> OthersUnchanged(p, r.value, {v})
    ensures r.Success? && Shared(p, v) && Size(p, v) < Capacity(p, v) ==>
      forall u :: 0 <= u < |p.vecs| && u != v && p.vecs[u].storage == p.vecs[v].storage ==>
        Buffer(r.value, u) == Buffer(p, v)[Size(p, v) := w] && Size(r.value, u) == Size(p, u)
  {
    var p1 := GrowAsWritten(p, v);
    if Size(p1, v) < Capacity(p1, v) then
      var q := Append(p1, v, w);
      assert Size(p, v) == Capacity(p, v) ==> OthersUnchanged(p, q, {v}) by {
        if Size(p, v) == Capacity(p, v) {
          OthersTrans(p, p1, q, {v}, {v});
        }
      }
      Success(q)
    else
      Failure(WritePastCapacity)
  }

  /** `push_back` as intended: take a private copy first, and grow to at
      least size + 1 words. The new element is appended and no other vector
      sees any change. */
  function PushBack(p: Pool, v: nat, w: Word): (q: Pool)
    requires Live(p, v)
    ensures Live(q, v) && |q.vecs| == |p.vecs|
    ensures Contents(q, v) == Contents(p, v) + [w]
    ensures !Shared(q, v)
    ensures OthersUnchanged(p, q, {v})
  {
    var n := Size(p, v);
    var p0 := PrepareToNew(p, v);
    var p1 := if Capacity(p0, v) < n + 1 then Reserve(p0, v, Max(NewCapacity(n), n + 1)) else p0;
    var q := Append(p1, v, w);
    OthersTrans(p0, p1, q, {v}, {v});
    OthersTrans(p, p0, q, {v}, {v});
    q
  }

  /** Wherever `push_back` as written neither fails nor writes into shared
      words, it does exactly what the intended version does. */
  lemma {:induction false} PushBackAgrees(p: Pool, v: nat, w: Word)
    requires Live(p, v) && !Shared(p, v) && !(Size(p, v) == 1 && Capacity(p, v) == 1)
    ensures PushBackAsWritten(p, v, w) == Success(PushBack(p, v, w))
  {
    var n := Size(p, v);
    if Capacity(p, v) < n + 1 {
      NewCapacityGrows(n);
      assert Max(NewCapacity(n), n + 1) == NewCapacity(n);
      assert GrowAsWritten(p, v) == Reserve(PrepareToNew(p, v), v, Max(NewCapacity(n), n + 1));
    }
  }

  /** `pop_back`, on a vector that is not empty. */
  function PopBack(p: Pool, v: nat): (q: Pool)
    requires Live(p, v) && Size(p, v) > 0
    ensures Live(q, v) && |q.vecs| == |p.vecs|
    ensures Contents(q, v) == Contents(p, v)[..Size(p, v) - 1]
    ensures IsBig(q, v) == IsBig(p, v) && Shared(q, v) == Shared(p, v)
    ensures p.vecs[v].storage == q.vecs[v].storage
    ensures OthersUnchanged(p, q, {v})
  {
    Resize(p, v, Size(p, v) - 1)
  }

  /** Repeated `pop_back` down to s words, as `delete_zero` does: the
      storage stays where it was. */
  function PopTo(p: Pool, v: nat, s: nat): (q: Pool)
    requires Live(p, v) && s <= Size(p, v)
    ensures Live(q, v) && |q.vecs| == |p.vecs|
    ensures Contents(q, v) == Contents(p, v)[..s]
    ensures q.vecs[v].storage == p.vecs[v].storage && Buffer(q, v) == Buffer(p, v)
    ensures IsBig(q, v) == IsBig(p, v) && Shared(q, v) == Shared(p, v)
    ensures OthersUnchanged(p, q, {v})
    decreases Size(p, v) - s
  {
    if Size(p, v) == s then
      p
    else
      var p1 := PopBack(p, v);
      var q := PopTo(p1, v, s);
      OthersTrans(p, p1, q, {v}, {v});
      q
  }

  /** `back`, on a vector that is not empty. */
  function Back(p: Pool, v: nat): (r: Word)
    requires Live(p, v) && Size(p, v) > 0
    ensures r == Contents(p, v)[Size(p, v) - 1]
  {
    Buffer(p, v)[Size(p, v) - 1]
  }

  /** After a push, `back` is the pushed word and `pop_back` restores the
      contents. */
  lemma PushPop(p: Pool, v: nat, w: Word)
    requires Live(p, v)
    ensures Back(PushBack(p, v, w), v) == w
    ensures Contents(PopBack(PushBack(p, v, w), v), v) == Contents(p, v)
  {
    var q := PushBack(p, v, w);
    assert Contents(q, v) == Contents(p, v) + [w];
    assert Contents(q, v)[..Size(q, v) - 1] == Contents(p, v);
  }

  // ---------------------------------------------------------------------------
  // swap, destruction, assignment

  /** Exchanging two vectors leaves every allocation's count as it was. */
  lemma {:induction false} CountSwap(vecs: seq<Vec>, v: nat, w: nat, id: nat)
    requires v < |vecs| && w < |vecs|
    ensures Count(vecs[v := vecs[w]][w := vecs[v]], id) == Count(vecs, id)
  {
    CountUpdate(vecs, v, vecs[w], id);
    CountUpdate(vecs[v := vecs[w]], w, vecs[v], id);
  }

  /** `swap`: v and w exchange sizes and storage (inline arrays are
      exchanged word by word, allocations by pointer). */
  function Swap(p: Pool, v: nat, w: nat): (q: Pool)
    requires Live(p, v) && Live(p, w)
    ensures Live(q, v) && Live(q, w) && |q.vecs| == |p.vecs| && q.heap == p.heap
    ensures Contents(q, v) == Contents(p, w) && Contents(q, w) == Contents(p, v)
    ensures q.vecs[v] == p.vecs[w] && q.vecs[w] == p.vecs[v]
    ensures OthersUnchanged(p, q, {v, w})
  {
    var q := Pool(p.vecs[v := p.vecs[w]][w := p.vecs[v]], p.heap, p.nextId);
    forall j | j in q.heap
      ensures Count(q.vecs, j) == Count(p.vecs, j)
    {
      CountSwap(p.vecs, v, w, j);
    }
    assert forall u :: 0 <= u < |q.vecs| ==> VecValid(q.heap, q.nextId, q.vecs[u]);
    q
  }

  /** Swapping twice restores the pool. */
  lemma SwapTwice(p: Pool, v: nat, w: nat)
    requires Live(p, v) && Live(p, w)
    ensures Swap(Swap(p, v, w), v, w) == p
  {
    var q := Swap(p, v, w);
    assert Swap(q, v, w).vecs == p.vecs;
  }

  /** The destructor of the most recently made vector: its allocation, if
      it has one, loses an owner and is freed with its last one. */
  function DropLast(p: Pool): (q: Pool)
    requires Valid(p) && |p.vecs| > 0
    ensures Valid(q) && |q.vecs| == |p.vecs| - 1
    ensures forall u :: 0 <= u < |q.vecs| ==> q.vecs[u] == p.vecs[u]
    ensures OthersUnchanged(q, p, {})
  {
    var n := |p.vecs| - 1;
    var q := Pool(p.vecs[..n], Detach(p, n), p.nextId);
    DropValid(p, q);
    q
  }

  lemma {:induction false} DropValid(p: Pool, q: Pool)
    requires Valid(p) && |p.vecs| > 0
    requires q == Pool(p.vecs[..|p.vecs| - 1], Detach(p, |p.vecs| - 1), p.nextId)
    ensures Valid(q)
    ensures forall u :: 0 <= u < |q.vecs| ==> Buffer(q, u) == Buffer(p, u)
  {
    var n := |p.vecs| - 1;
    forall u | 0 <= u < n
      ensures VecValid(q.heap, q.nextId, q.vecs[u])
      ensures q.vecs[u].storage.Heap? ==> q.heap[q.vecs[u].storage.id].words == p.heap[q.vecs[u].storage.id].words
    {
      assert VecValid(p.heap, p.nextId, p.vecs[u]);
      if p.vecs[u].storage.Heap? && p.vecs[n].storage == p.vecs[u].storage {
        var held := p.vecs[u].storage.id;
        if p.heap[held].owners == 1 {
          CountOne(p.vecs, n, u, held);
        }
      }
    }
    forall j | j in q.heap
      ensures Count(q.vecs, j) == q.heap[j].owners
    {
      assert p.vecs == q.vecs + [p.vecs[n]];
    }
  }

  /** Making a copy and destroying it again restores the pool. */
  lemma CopyThenDrop(p: Pool, v: nat)
    requires Live(p, v)
    ensures DropLast(Copy(p, v).pool) == p
  {
    var c := Copy(p, v).pool;
    assert c.vecs[..|p.vecs|] == p.vecs;
    if p.vecs[v].storage.Heap? {
      var id := p.vecs[v].storage.id;
      assert DropLast(c).heap == c.heap[id := p.heap[id]];
    }
  }

  /** `operator=`: copy the source into a temporary, swap it with the
      target, destroy the temporary (the target's old words). */
  function Assign(p: Pool, v: nat, w: nat): (q: Pool)
    requires Live(p, v) && Live(p, w)
    ensures Live(q, v) && |q.vecs| == |p.vecs|
    ensures Contents(q, v) == Contents(p, w)
    ensures IsBig(q, v) == IsBig(p, w)
    ensures IsBig(p, w) ==> q.vecs[v].storage == p.vecs[w].storage
    ensures OthersUnchanged(p, q, {v})
  {
    var t := Copy(p, w);
    var p1 := Swap(t.pool, v, t.v);
    var q := DropLast(p1);
    AssignOthers(p, t.pool, p1, q, v, t.v);
    q
  }

  lemma AssignOthers(p: Pool, t: Pool, p1: Pool, q: Pool, v: nat, tv: nat)
    requires OthersUnchanged(p, t, {}) && OthersUnchanged(t, p1, {v, tv}) && OthersUnchanged(q, p1, {})
    requires tv == |p.vecs| == |q.vecs|
    ensures OthersUnchanged(p, q, {v})
  {
    assert forall u :: 0 <= u < |p.vecs| && u != v ==> Contents(q, u) == Contents(p1, u) == Contents(t, u);
  }

  // ---------------------------------------------------------------------------
  // push_back as written, on concrete vectors

  /** B = A for a vector A with an allocation, then B.pop_back() and
      B.push_back(w): the w lands in the shared words, so A's last word
      becomes w though only B was written (A = five zeros, w = 9 makes A
      read 9 at index 4). */
  lemma SharedWriteAsWritten(p: Pool, a: nat, w: Word)
    requires Live(p, a) && IsBig(p, a) && Size(p, a) > 0
    ensures var b := Copy(p, a);
      var q := PopBack(b.pool, b.v);
      var r := PushBackAsWritten(q, b.v, w);
      r.Success? && Contents(r.value, a) == Contents(p, a)[Size(p, a) - 1 := w]
  {
    var b := Copy(p, a);
    var q := PopBack(b.pool, b.v);
    var r := PushBackAsWritten(q, b.v, w);
    assert Shared(q, b.v) && Size(q, b.v) < Capacity(q, b.v);
    assert Buffer(q, b.v) == Buffer(q, a) && Size(q, a) == Size(p, a);
    assert Contents(r.value, a) == Buffer(q, a)[Size(p, a) - 1 := w][..Size(p, a)];
  }

  /** The same through the intended `push_back`: A keeps its words. */
  lemma SharedWriteFixed(p: Pool, a: nat, w: Word)
    requires Live(p, a) && IsBig(p, a) && Size(p, a) > 0
    ensures var b := Copy(p, a);
      var q := PopBack(b.pool, b.v);
      Contents(PushBack(q, b.v, w), a) == Contents(p, a)
  {
  }

  /** B = A for a one-word vector A with an allocation (five zeros popped
      four times, say); `prepare_to_new` gives B a private allocation of
      capacity 1; `push_back` then reserves `get_new_capacity(1) == 1` and
      would write past the end. */
  lemma PastCapacityAsWritten(p: Pool, a: nat, w: Word)
    requires Live(p, a) && IsBig(p, a) && Size(p, a) == 1
    ensures var b := Copy(p, a);
      var q := PrepareToNew(b.pool, b.v);
      PushBackAsWritten(q, b.v, w) == Failure(WritePastCapacity)
  {
  }

  /** The buffer side of `big_integer res(sign, temp)` followed by
      `res.correct()`: res copies temp, `delete_zero` pops res down to s
      words, `prepare_to_new` runs, and `push_back` appends the guard word.
      The push writes past the end exactly when temp holds an allocation and
      s is 1: then res shares that allocation, so `prepare_to_new` gives it
      a private one of capacity 1. Otherwise res ends as the s kept words
      and the guard word. */
  function CopyTrimPush(p: Pool, t: nat, s: nat, w: Word): (r: Result<Pool, VecError>)
    requires Live(p, t) && 0 < s <= Size(p, t)
    ensures r.Failure? <==> IsBig(p, t) && s == 1
    ensures r.Success? ==> Live(r.value, |p.vecs|) && Contents(r.value, |p.vecs|) == Contents(p, t)[..s] + [w]
    ensures r.Success? ==> Contents(r.value, t) == Contents(p, t)
  {
    var res := Copy(p, t);
    var q := PrepareToNew(PopTo(res.pool, res.v, s), res.v);
    assert !IsBig(p, t) ==> Capacity(q, res.v) == SMALL_SIZE;
    PushBackAsWritten(q, res.v, w)
  }

  /** The same through the intended `push_back`: B becomes A's word then w. */
  lemma PastCapacityFixed(p: Pool, a: nat, w: Word)
    requires Live(p, a) && IsBig(p, a) && Size(p, a) == 1
    ensures var b := Copy(p, a);
      var q := PrepareToNew(b.pool, b.v);
      Contents(PushBack(q, b.v, w), b.v) == Contents(p, a) + [w]
  {
  }
}
