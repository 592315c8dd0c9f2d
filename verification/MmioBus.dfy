/**
 * The MMIO bus: device slots kept sorted by base address, looked up by bisection.
 *
 * The specification is a linear scan.  The index agrees with it exactly when no zero-size slot
 * sits behind a proper slot at the same base address.
 */
module MmioBus {
  import opened Bytes

  datatype Slot = Slot(base: nat, size: nat, device: nat) {
    function End(): nat { base + size }

    predicate Contains(gpa: nat) { base <= gpa < End() }

    /** The overlap test of `register`. */
    predicate Overlaps(other: Slot) { base < other.End() && End() > other.base }
  }

  /**
   * Two slots overlap exactly when they share an address, or one is empty and strictly inside the
   * other; neighbours do not.
   */
  lemma OverlapsIff(a: Slot, b: Slot)
    ensures a.Overlaps(b) <==>
            || (exists x: nat :: a.Contains(x) && b.Contains(x))
            || (a.size == 0 && b.base < a.base < b.base + b.size)
            || (b.size == 0 && a.base < b.base < a.base + a.size)
  {
    if a.Overlaps(b) && a.size > 0 && b.size > 0 {
      var x: nat := if a.base < b.base then b.base else a.base;
      assert a.Contains(x) && b.Contains(x);
    }
  }

  predicate Sorted(slots: seq<Slot>) {
    forall i, j :: 0 <= i < j < |slots| ==> slots[i].base <= slots[j].base
  }

  predicate Disjoint(slots: seq<Slot>) {
    forall i, j :: 0 <= i < j < |slots| ==> !slots[i].Overlaps(slots[j])
  }

  /** The first slot that contains `gpa`, found by scanning. */
  function Scan(slots: seq<Slot>, gpa: nat): (r: Option<nat>)
    ensures r.Some? ==> r.value < |slots| && slots[r.value].Contains(gpa)
    ensures r.None? ==> forall i :: 0 <= i < |slots| ==> !slots[i].Contains(gpa)
  {
    if slots == [] then None
    else
      var r := Scan(slots[..|slots| - 1], gpa);
      if r.Some? then r
      else if slots[|slots| - 1].Contains(gpa) then Some(|slots| - 1)
      else None
  }

  /** The number of leading slots whose base is at most `gpa`. */
  function PartitionPoint(slots: seq<Slot>, gpa: nat): (p: nat)
    requires Sorted(slots)
    ensures p <= |slots|
    ensures forall i :: 0 <= i < p ==> slots[i].base <= gpa
    ensures forall i :: p <= i < |slots| ==> gpa < slots[i].base
  {
    if slots == [] then 0
    else if slots[|slots| - 1].base <= gpa then |slots|
    else PartitionPoint(slots[..|slots| - 1], gpa)
  }

  lemma PartitionUnique(slots: seq<Slot>, gpa: nat, p: nat)
    requires Sorted(slots) && p <= |slots|
    requires forall i :: 0 <= i < p ==> slots[i].base <= gpa
    requires forall i :: p <= i < |slots| ==> gpa < slots[i].base
    ensures p == PartitionPoint(slots, gpa)
  {
    assert p < |slots| ==> gpa < slots[p].base;
    assert p > 0 ==> slots[p - 1].base <= gpa;
  }

  /** The lookup of `find_slot`: only the last slot at or below `gpa` is examined. */
  function Lookup(slots: seq<Slot>, gpa: nat): Option<nat>
    requires Sorted(slots)
  {
    var p := PartitionPoint(slots, gpa);
    if p > 0 && gpa < slots[p - 1].End() then Some(p - 1) else None
  }

  /** A zero-size slot behind a proper slot at the same base. */
  ghost predicate Shadowed(slots: seq<Slot>) {
    exists i, k :: 0 <= i < k < |slots| && Hides(slots[k], slots[i])
  }

  predicate Hides(empty: Slot, proper: Slot) {
    empty.base == proper.base && empty.size == 0 && proper.size > 0
  }

  ghost predicate Agrees(slots: seq<Slot>)
    requires Sorted(slots)
  {
    forall gpa: nat :: Lookup(slots, gpa) == Scan(slots, gpa)
  }

  /** Where bisection and scan differ, some slot is shadowed. */
  lemma LookupAt(slots: seq<Slot>, gpa: nat)
    requires Sorted(slots) && Disjoint(slots)
    ensures Lookup(slots, gpa) == Scan(slots, gpa) || Shadowed(slots)
  {
    var p := PartitionPoint(slots, gpa);
    if Scan(slots, gpa).Some? {
      var i := Scan(slots, gpa).value;
      if i < p - 1 {
        assert !slots[i].Overlaps(slots[p - 1]);
        assert Hides(slots[p - 1], slots[i]);
      }
    }
  }

  /**
   * For any slots that accepted registrations can produce, the bisection returns for every
   * address what the linear scan returns, if and only if no slot is shadowed.
   */
  lemma LookupAgreesIffNotShadowed(slots: seq<Slot>)
    requires Sorted(slots) && Disjoint(slots)
    ensures Agrees(slots) <==> !Shadowed(slots)
  {
    if !Shadowed(slots) {
      forall gpa: nat
        ensures Lookup(slots, gpa) == Scan(slots, gpa)
      {
        LookupAt(slots, gpa);
      }
    } else {
      var i, k :| 0 <= i < k < |slots| && Hides(slots[k], slots[i]);
      var gpa := slots[i].base;
      var last := PartitionPoint(slots, gpa) - 1;
      assert last >= k;
      assert slots[k].base <= slots[last].base;
      assert !slots[i].Overlaps(slots[last]);
      assert slots[i].Contains(gpa);
      assert Lookup(slots, gpa).None? && Scan(slots, gpa).Some?;
    }
  }

  /** Slots of positive size are never shadowed, so the index is then always right. */
  lemma ProperSlotsAgree(slots: seq<Slot>)
    requires Sorted(slots) && Disjoint(slots)
    requires forall i :: 0 <= i < |slots| ==> slots[i].size > 0
    ensures Agrees(slots)
  {
    LookupAgreesIffNotShadowed(slots);
  }

  lemma ContainsUnique(slots: seq<Slot>, gpa: nat, k: nat)
    requires Disjoint(slots) && k < |slots| && slots[k].Contains(gpa)
    ensures forall i :: 0 <= i < |slots| && slots[i].Contains(gpa) ==> i == k
  {
  }

  /** Slot `i` is not hidden by a later empty one. */
  ghost predicate Visible(slots: seq<Slot>, i: nat)
    requires i < |slots|
  {
    forall k :: i < k < |slots| ==> !Hides(slots[k], slots[i])
  }

  lemma FoundOrHidden(slots: seq<Slot>, gpa: nat, i: nat)
    requires Sorted(slots) && Disjoint(slots) && i < |slots| && slots[i].Contains(gpa)
    ensures Lookup(slots, gpa) == Some(i) || !Visible(slots, i)
  {
    var p := PartitionPoint(slots, gpa);
    if i < p - 1 {
      assert !slots[i].Overlaps(slots[p - 1]);
      assert Hides(slots[p - 1], slots[i]);
    }
  }

  lemma FoundIsVisible(slots: seq<Slot>, gpa: nat)
    requires Sorted(slots) && Lookup(slots, gpa).Some?
    ensures var i := Lookup(slots, gpa).value; i < |slots| && Visible(slots, i) && slots[i].Contains(gpa)
  {
    var p := PartitionPoint(slots, gpa);
    assert slots[p - 1].base <= gpa;
  }

  /** The index finds a slot exactly when a visible one contains the address, and then that one. */
  lemma LookupIsVisible(slots: seq<Slot>, gpa: nat)
    requires Sorted(slots) && Disjoint(slots)
    ensures forall i :: 0 <= i < |slots| && Visible(slots, i) && slots[i].Contains(gpa) ==> Lookup(slots, gpa) == Some(i)
    ensures Lookup(slots, gpa).Some? ==>
              var i := Lookup(slots, gpa).value; i < |slots| && Visible(slots, i) && slots[i].Contains(gpa)
  {
    hide Lookup, Visible, Sorted, Disjoint;
    forall i | 0 <= i < |slots| && slots[i].Contains(gpa)
      ensures Lookup(slots, gpa) == Some(i) || !Visible(slots, i)
    {
      FoundOrHidden(slots, gpa, i);
    }
    if Lookup(slots, gpa).Some? {
      FoundIsVisible(slots, gpa);
    }
  }

  /** Pushing `s` and then sorting stably by base: `s` lands behind every equal base. */
  function Inserted(slots: seq<Slot>, s: Slot): (r: seq<Slot>)
    requires Sorted(slots)
    ensures |r| == |slots| + 1
    ensures multiset(r) == multiset(slots + [s])
  {
    var p := PartitionPoint(slots, s.base);
    assert slots == slots[..p] + slots[p..];
    slots[..p] + [s] + slots[p..]
  }

  lemma InsertedAt(slots: seq<Slot>, s: Slot, i: nat)
    requires Sorted(slots) && i <= |slots|
    ensures var p := PartitionPoint(slots, s.base);
            Inserted(slots, s)[i] == if i < p then slots[i] else if i == p then s else slots[i - 1]
  {
  }

  lemma InsertedKeepsIndex(slots: seq<Slot>, s: Slot)
    requires Sorted(slots) && Disjoint(slots)
    requires forall i :: 0 <= i < |slots| ==> !s.Overlaps(slots[i])
    ensures Sorted(Inserted(slots, s)) && Disjoint(Inserted(slots, s))
  {
    var p := PartitionPoint(slots, s.base);
    var all := Inserted(slots, s);
    forall i, j | 0 <= i < j < |all|
      ensures all[i].base <= all[j].base && !all[i].Overlaps(all[j])
    {
      InsertedAt(slots, s, i);
      InsertedAt(slots, s, j);
    }
  }

  /** A registration shadows a slot only by hiding it itself, or because one was shadowed before. */
  lemma ShadowComesFrom(slots: seq<Slot>, s: Slot)
    requires Sorted(slots) && Shadowed(Inserted(slots, s))
    ensures Shadowed(slots) || exists i :: 0 <= i < |slots| && Hides(s, slots[i])
  {
    var p := PartitionPoint(slots, s.base);
    var all := Inserted(slots, s);
    var i, k :| 0 <= i < k < |all| && Hides(all[k], all[i]);
    InsertedAt(slots, s, i);
    InsertedAt(slots, s, k);
    if k == p {
      assert Hides(s, slots[i]);
    } else if i != p {
      assert Hides(slots[if k < p then k else k - 1], slots[if i < p then i else i - 1]);
    }
  }

  /** What a caller can check: only an empty registration at an occupied base shadows a slot. */
  lemma RegistrationShadowsIff(slots: seq<Slot>, s: Slot)
    requires Sorted(slots) && !Shadowed(slots)
    ensures Shadowed(Inserted(slots, s)) <==> exists i :: 0 <= i < |slots| && Hides(s, slots[i])
  {
    if Shadowed(Inserted(slots, s)) {
      ShadowComesFrom(slots, s);
    }
    if i :| 0 <= i < |slots| && Hides(s, slots[i]) {
      var p := PartitionPoint(slots, s.base);
      InsertedAt(slots, s, i);
      InsertedAt(slots, s, p);
    }
  }

  class Bus {
    var slots: seq<Slot>

    ghost predicate Valid()
      reads this
    {
      Sorted(slots) && Disjoint(slots)
    }

    constructor ()
      ensures Valid() && slots == []
    {
      slots := [];
    }

    /** `register`; `accepted` is false where the source panics on an overlap. */
    method Register(base: nat, size: nat, device: nat) returns (accepted: bool)
      requires Valid() && base + size < U64_RANGE
      modifies this
      ensures Valid()
      ensures accepted <==> forall i :: 0 <= i < |old(slots)| ==> !Slot(base, size, device).Overlaps(old(slots)[i])
      ensures slots == if accepted then Inserted(old(slots), Slot(base, size, device)) else old(slots)
    {
      var s := Slot(base, size, device);
      for k := 0 to |slots|
        invariant forall i :: 0 <= i < k ==> !s.Overlaps(slots[i])
      {
        if s.Overlaps(slots[k]) {
          return false;
        }
      }
      InsertedKeepsIndex(slots, s);
      slots := Inserted(slots, s);
      return true;
    }

    /** `find_slot`: `partition_point` as a bisection, then one bounds test. */
    method FindSlot(gpa: nat) returns (r: Option<nat>)
      requires Valid()
      ensures r == Lookup(slots, gpa)
      ensures !Shadowed(slots) ==> r == Scan(slots, gpa)
    {
      var lo, hi := 0, |slots|;
      while lo < hi
        invariant 0 <= lo <= hi <= |slots|
        invariant forall i :: 0 <= i < lo ==> slots[i].base <= gpa
        invariant forall i :: hi <= i < |slots| ==> gpa < slots[i].base
      {
        var mid := (lo + hi) / 2;
        if slots[mid].base <= gpa {
          lo := mid + 1;
        } else {
          hi := mid;
        }
      }
      PartitionUnique(slots, gpa, lo);
      LookupAt(slots, gpa);
      if lo > 0 && gpa < slots[lo - 1].End() {
        return Some(lo - 1);
      }
      return None;
    }

    /**
     * The routing shared by `read` and `write`: the owning device and the offset in it.  A device
     * gets the accesses to its addresses unless its slot is hidden by an empty one.
     */
    method Route(gpa: nat) returns (r: Option<(nat, nat)>)
      requires Valid()
      ensures r.Some? <==> exists i :: 0 <= i < |slots| && Visible(slots, i) && slots[i].Contains(gpa)
      ensures forall i :: 0 <= i < |slots| && Visible(slots, i) && slots[i].Contains(gpa) ==>
                            r == Some((slots[i].device, gpa - slots[i].base))
      ensures !Shadowed(slots) ==> (r.Some? <==> exists i :: 0 <= i < |slots| && slots[i].Contains(gpa))
    {
      var found := FindSlot(gpa);
      LookupIsVisible(slots, gpa);
      if found.None? {
        return None;
      }
      var slot := slots[found.value];
      ContainsUnique(slots, gpa, found.value);
      return Some((slot.device, gpa - slot.base));
    }
  }
}
