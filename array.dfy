/** The pool-backed growable array of ngx_array.h.

    The control block ngx_array_t holds the storage elts, the number of
    elements in use nelts, the element size in bytes size, the capacity
    nalloc and the pool the storage comes from. Elements are modelled at
    element granularity (an array<T>); size is recorded but not used for
    addressing. A pointer into the storage is modelled as an index. */
module NgxArray {

  datatype Option<T> = None | Some(value: T)

  /** The two return codes of ngx_array_init. */
  datatype Status = Ok | Error

  /** ngx_pool_t, seen only through what it has handed out. A pool never
      frees a single block, so Blocks only grows. */
  class Pool {
    ghost var Blocks: set<object>

    constructor ()
      ensures Blocks == {}
    {
      Blocks := {};
    }
  }

  /** ngx_palloc(pool, count * size): a foreign allocation of count
      elements that may fail.
      On success the block is fresh, holds count elements and is recorded in
      the pool; on failure nothing changes. */
  method Palloc<T(0)>(pool: Pool, count: nat) returns (r: Option<array<T>>)
    modifies pool
    ensures r.Some? ==> fresh(r.value) && r.value.Length == count
    ensures r.Some? ==> pool.Blocks == old(pool.Blocks) + {r.value}
    ensures r.None? ==> pool.Blocks == old(pool.Blocks)
  {
    var succeeds: bool := *;
    if succeeds {
      var block := new T[count];
      pool.Blocks := pool.Blocks + {block};
      r := Some(block);
    } else {
      r := None;
    }
  }

  /** ngx_memcpy of the first count elements of src into dst. */
  method Copy<T>(src: array<T>, dst: array<T>, count: nat)
    requires count <= src.Length && count <= dst.Length && src != dst
    modifies dst
    ensures dst[..count] == src[..count]
    ensures dst[count..] == old(dst[count..])
  {
    var i := 0;
    while i < count
      invariant 0 <= i <= count
      invariant dst[..i] == src[..i]
      invariant dst[count..] == old(dst[count..])
    {
      dst[i] := src[i];
      i := i + 1;
    }
  }

  /** The capacity after growth as the header comment describes it for a
      full array: twice the old capacity. */
  function DoubledCapacity(nalloc: nat): (c: nat)
    ensures c >= nalloc
    ensures nalloc > 0 ==> c > nalloc
  {
    2 * nalloc
  }

  /** Doubling a capacity of zero leaves no room for the element being
      pushed: a full array of capacity 0 stays full after growth. */
  lemma DoublingZeroLeavesNoRoom()
    ensures DoubledCapacity(0) < 0 + 1
  {
  }

  /** The capacity after growing for n more elements when nelts are in use:
      twice the old capacity, or exactly enough when that is more. */
  function GrownCapacity(nalloc: nat, nelts: nat, n: nat): (c: nat)
    ensures c >= nelts + n && c >= 2 * nalloc
    ensures c == 2 * nalloc || c == nelts + n
  {
    if 2 * nalloc >= nelts + n then 2 * nalloc else nelts + n
  }

  /** For a full array with room already allocated, growing for one more
      element is exactly the doubling the header describes. */
  lemma GrownIsDoubling(nalloc: nat)
    requires nalloc > 0
    ensures GrownCapacity(nalloc, nalloc, 1) == DoubledCapacity(nalloc)
  {
  }

  /** ngx_array_t */
  class Array<T(0)> {
    var elts: array?<T>
    var nelts: nat
    var size: nat
    var nalloc: nat
    var pool: Pool?

    /** A usable array: storage of nalloc elements from its own pool, and
        no more elements in use than allocated. */
    ghost predicate Valid()
      reads this, pool
    {
      && elts != null && pool != null
      && elts in pool.Blocks
      && elts.Length == nalloc
      && nelts <= nalloc
    }

    /** The elements in use. */
    ghost function Contents(): seq<T>
      reads this, elts
      requires elts != null && nelts <= elts.Length
    {
      elts[..nelts]
    }

    /** A caller-owned control block before ngx_array_init: its fields
        hold arbitrary values. */
    constructor ()
    {
    }

    /** ngx_array_init: the counters and the pool are set before the
        allocation is tried, so even a failed init leaves nelts == 0. */
    method Init(p: Pool, n: nat, size: nat) returns (rc: Status)
      modifies this, p
      ensures nelts == 0 && this.size == size && nalloc == n && pool == p
      ensures rc == Error <==> elts == null
      ensures rc == Error ==> p.Blocks == old(p.Blocks)
      ensures rc == Ok ==> Valid() && fresh(elts) && Contents() == []
      ensures rc == Ok ==> p.Blocks == old(p.Blocks) + {elts}
    {
      nelts := 0;
      this.size := size;
      nalloc := n;
      pool := p;
      var block := Palloc<T>(p, n);
      if block.None? {
        elts := null;
        return Error;
      }
      elts := block.value;
      return Ok;
    }

    /** Replaces the storage with a fresh block of newCap elements holding
        the elements in use; the old block stays in the pool. On failure
        nothing changes. */
    method Grow(newCap: nat) returns (ok: bool)
      requires Valid() && newCap >= nalloc
      modifies this, pool
      ensures Valid() && pool == old(pool) && size == old(size) && nelts == old(nelts)
      ensures ok ==> fresh(elts) && nalloc == newCap
      ensures ok ==> pool.Blocks == old(pool.Blocks) + {elts}
      ensures !ok ==> elts == old(elts) && nalloc == old(nalloc) && pool.Blocks == old(pool.Blocks)
      ensures Contents() == old(Contents())
      ensures old(elts) in pool.Blocks
    {
      var block := Palloc<T>(pool, newCap);
      if block.None? {
        return false;
      }
      Copy(elts, block.value, nelts);
      elts := block.value;
      nalloc := newCap;
      return true;
    }

    /** ngx_array_push: returns the index of a new slot at the end (NULL
        when the growth allocation fails). A full array first moves to new
        storage of twice the capacity; the old block is not freed. */
    method Push() returns (slot: Option<nat>)
      requires Valid()
      modifies this, pool
      ensures Valid() && pool == old(pool) && size == old(size)
      ensures old(elts) in pool.Blocks
      ensures slot.Some? ==> slot.value == old(nelts) && nelts == old(nelts) + 1
      ensures slot.Some? ==> Contents()[..old(nelts)] == old(Contents())
      ensures slot.Some? && old(nelts) < old(nalloc) ==> elts == old(elts) && nalloc == old(nalloc)
      ensures slot.Some? && old(nelts) == old(nalloc) ==>
        fresh(elts) && nalloc == GrownCapacity(old(nalloc), old(nelts), 1)
      ensures old(nelts) < old(nalloc) ==> pool.Blocks == old(pool.Blocks)
      ensures slot.Some? && old(nelts) == old(nalloc) ==> pool.Blocks == old(pool.Blocks) + {elts}
      ensures slot.None? ==> old(nelts) == old(nalloc)
      ensures slot.None? ==>
        elts == old(elts) && nelts == old(nelts) && nalloc == old(nalloc) && pool.Blocks == old(pool.Blocks)
    {
      if nelts == nalloc {
        var ok := Grow(GrownCapacity(nalloc, nelts, 1));
        if !ok {
          return None;
        }
      }
      slot := Some(nelts);
      nelts := nelts + 1;
    }

    /** ngx_array_push_n: returns the index of the first of n new
        contiguous slots (NULL when the growth allocation fails). */
    method PushN(n: nat) returns (slot: Option<nat>)
      requires Valid()
      modifies this, pool
      ensures Valid() && pool == old(pool) && size == old(size)
      ensures old(elts) in pool.Blocks
      ensures slot.Some? ==> slot.value == old(nelts) && nelts == old(nelts) + n
      ensures slot.Some? ==> Contents()[..old(nelts)] == old(Contents())
      ensures slot.Some? && old(nelts) + n <= old(nalloc) ==> elts == old(elts) && nalloc == old(nalloc)
      ensures slot.Some? && old(nelts) + n > old(nalloc) ==>
        fresh(elts) && nalloc == GrownCapacity(old(nalloc), old(nelts), n)
      ensures old(nelts) + n <= old(nalloc) ==> pool.Blocks == old(pool.Blocks)
      ensures slot.Some? && old(nelts) + n > old(nalloc) ==> pool.Blocks == old(pool.Blocks) + {elts}
      ensures slot.None? ==> old(nelts) + n > old(nalloc)
      ensures slot.None? ==>
        elts == old(elts) && nelts == old(nelts) && nalloc == old(nalloc) && pool.Blocks == old(pool.Blocks)
    {
      if nelts + n > nalloc {
        var ok := Grow(GrownCapacity(nalloc, nelts, n));
        if !ok {
          return None;
        }
      }
      slot := Some(nelts);
      nelts := nelts + n;
    }

    /** The caller's store through a pointer returned by push or push_n. */
    method Store(i: nat, v: T)
      requires Valid() && i < nelts
      modifies elts
      ensures Contents() == old(Contents())[i := v]
    {
      elts[i] := v;
    }
  }
}
