/** The change-suppression buffer (change_flag_buffer): one lazily allocated
    array of uint8_t flags per kind, indexed by slot. A set flag means "the
    next change notification for this slot is our own write echoing back". */
module FlagBuffer {
  import opened Protocol

  /** The abstract buffer: the contents of every allocated array, by kind. */
  type Flags = map<Kind, seq<byte>>

  /** AllocateMemory as its callers intend it: a zero-filled array of exactly
      `capacity` flags for a kind that has none yet; otherwise nothing. */
  function Allocated(f: Flags, k: Kind, capacity: nat): Flags {
    if k in f || capacity == 0 then f else f[k := Zeros(capacity)]
  }

  /** Whether the flag of slot i of kind k exists and is non-zero. */
  predicate IsSet(f: Flags, k: Kind, i: int) {
    k in f && 0 <= i < |f[k]| && f[k][i] != 0
  }

  /** The buffer after `array[i] = v` on kind k's array, which is skipped when
      the array is missing or i is out of its range. */
  function Stored(f: Flags, k: Kind, i: int, v: byte): Flags {
    if k in f && 0 <= i < |f[k]| then f[k := f[k][i := v]] else f
  }

  /** Allocation happens at most once per kind; it gives `capacity` clear
      flags and leaves every other kind alone. */
  lemma AllocatedFacts(f: Flags, k: Kind, capacity: nat)
    ensures k in f || capacity == 0 ==> Allocated(f, k, capacity) == f
    ensures k !in f && capacity > 0 ==>
      k in Allocated(f, k, capacity) && |Allocated(f, k, capacity)[k]| == capacity
      && forall i :: !IsSet(Allocated(f, k, capacity), k, i)
    ensures forall k' :: k' != k ==> (k' in Allocated(f, k, capacity) <==> k' in f)
    ensures forall k' :: k' != k && k' in f ==> Allocated(f, k, capacity)[k'] == f[k']
    ensures Allocated(Allocated(f, k, capacity), k, capacity) == Allocated(f, k, capacity)
  {
  }

  /** Marking a slot sets exactly that flag when the slot exists; clearing a
      set flag consumes it, so a second test finds it clear. */
  lemma MarkAndConsume(f: Flags, k: Kind, i: int)
    ensures IsSet(Stored(f, k, i, 1), k, i) <==> k in f && 0 <= i < |f[k]|
    ensures !IsSet(Stored(f, k, i, 0), k, i)
    ensures forall k', j :: (k', j) != (k, i) ==> (IsSet(Stored(f, k, i, 1), k', j) <==> IsSet(f, k', j))
    ensures Stored(f, k, i, 1).Keys == f.Keys
  {
  }

  /** The global OpcUaChangeFlagBuffer: a nullable flag array per kind. A kind
      missing from `arrays` is a field that still holds NULL. */
  class ChangeFlagBuffer {
    var arrays: map<Kind, array<byte>>

    /** The arrays currently allocated. */
    function Arrays(): set<array<byte>>
      reads this
    {
      set k | k in arrays :: arrays[k]
    }

    /** No two kinds share an array. */
    ghost predicate Valid()
      reads this
    {
      forall k, k' :: k in arrays && k' in arrays && k != k' ==> arrays[k] != arrays[k']
    }

    ghost function View(): Flags
      reads this, Arrays()
    {
      map k | k in arrays :: arrays[k][..]
    }

    /** main.c zeroes the whole structure before any thread starts. */
    constructor ()
      ensures Valid() && View() == map[] && Arrays() == {}
    {
      arrays := map[];
    }

    /** AllocateMemory for kind k, storing the new array in the registry.
        `callocOk` is whether calloc would return memory; when it would not,
        the field stays NULL. */
    method Allocate(k: Kind, capacity: nat, callocOk: bool)
      requires Valid()
      modifies this
      ensures Valid()
      ensures View() == if callocOk then Allocated(old(View()), k, capacity) else old(View())
      ensures old(Arrays()) <= Arrays() && fresh(Arrays() - old(Arrays()))
    {
      if k in arrays || capacity == 0 || !callocOk {
        return;
      }
      var b := new byte[capacity](_ => 0);
      assert b[..] == Zeros(capacity);
      Install(k, b);
    }

    /** Stores array b as kind k's, where the field held NULL. */
    method Install(k: Kind, b: array<byte>)
      requires Valid() && k !in arrays && b !in Arrays()
      modifies this
      ensures Valid()
      ensures View() == old(View())[k := b[..]]
      ensures Arrays() == old(Arrays()) + {b}
    {
      ghost var before := View();
      arrays := arrays[k := b];
      assert View() == before[k := b[..]] by {
        forall k' | k' in old(arrays) ensures arrays[k'][..] == before[k'] { }
      }
      assert Arrays() == old(Arrays()) + {b} by {
        assert b == arrays[k];
        forall k' | k' in old(arrays) ensures arrays[k'] == old(arrays)[k'] && arrays[k'] in Arrays() { }
      }
    }

    /** `array[i] = v` on kind k's array, skipped when the array is missing or
        i is outside it. */
    method Store(k: Kind, i: int, v: byte)
      requires Valid()
      modifies Arrays()
      ensures View() == Stored(old(View()), k, i, v)
    {
      if k in arrays && 0 <= i < arrays[k].Length {
        arrays[k][i] := v;
      }
    }

    /** The watcher's test-and-clear of slot i of kind k. */
    method TestAndClear(k: Kind, i: int) returns (wasSet: bool)
      requires Valid()
      modifies Arrays()
      ensures wasSet == IsSet(old(View()), k, i)
      ensures View() == if wasSet then Stored(old(View()), k, i, 0) else old(View())
    {
      wasSet := k in arrays && 0 <= i < arrays[k].Length && arrays[k][i] != 0;
      if wasSet {
        Store(k, i, 0);
      }
    }

    /** FreeChangeFlagBuffer, with every field set to null afterwards, so a
        second release frees nothing. */
    method Release() returns (released: set<array<byte>>)
      modifies this
      ensures Valid() && View() == map[] && Arrays() == {}
      ensures released == old(Arrays())
    {
      released := set k | k in arrays :: arrays[k];
      arrays := map[];
    }
  }
}
