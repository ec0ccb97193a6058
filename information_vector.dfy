/** vtkInformationVector: an ordered, resizable vector of references to
    information objects, with a cached count of its entries. */
module InformationVectors {
  import opened Information
  import opened EntrySeqs

  class InformationVector {
    /** The stored references, in order (the internal vector). */
    var entries: seq<Info>
    /** The cached number of entries. */
    var numberOfInformationObjects: int

    /** The cached count always agrees with the stored vector. */
    ghost predicate Valid()
      reads this
    {
      numberOfInformationObjects == |entries|
    }

    /** Entries from position `lo` up to (not including) `hi` are pairwise
        distinct objects. */
    ghost predicate Distinct(lo: int, hi: int)
      reads this
      requires 0 <= lo <= hi <= |entries|
    {
      forall k, l :: lo <= k < l < hi ==> entries[k] != entries[l]
    }

    /** A new, empty vector. */
    constructor ()
      ensures Valid() && entries == []
    {
      entries := [];
      numberOfInformationObjects := 0;
    }

    function GetNumberOfInformationObjects(): (n: int)
      reads this
      requires Valid()
      ensures n == |entries|
    {
      numberOfInformationObjects
    }

    /** Grows the vector with fresh, empty information objects or drops the
        entries at the high end, so that `n` entries remain. */
    method SetNumberOfInformationObjects(n: nat)
      requires Valid()
      modifies this
      ensures Valid() && |entries| == n
      ensures n <= old(|entries|) ==> entries == old(entries)[..n]
      ensures old(|entries|) <= n ==> entries[..old(|entries|)] == old(entries)
      ensures forall k :: old(|entries|) <= k < n ==> fresh(entries[k]) && entries[k].IsEmpty()
      ensures old(|entries|) <= n ==> Distinct(old(|entries|), n)
    {
      var oldNumber := numberOfInformationObjects;
      if n > oldNumber {
        var i := oldNumber;
        while i < n
          invariant oldNumber <= i <= n
          invariant |entries| == i && entries[..oldNumber] == old(entries)
          invariant forall k :: oldNumber <= k < i ==> fresh(entries[k]) && entries[k].IsEmpty()
          invariant Distinct(oldNumber, i)
        {
          var info := new Info();
          entries := entries + [info];
          i := i + 1;
        }
        numberOfInformationObjects := n;
      } else if n < oldNumber {
        entries := entries[..n];
        numberOfInformationObjects := n;
      }
    }

    /** Stores `info` at `index`, expanding the vector when `index` is past
        its end; the positions in between get fresh, empty objects. */
    method SetInformationObject(index: nat, info: Info)
      requires Valid()
      modifies this
      ensures Valid()
      ensures |entries| == if index < old(|entries|) then old(|entries|) else index + 1
      ensures entries[index] == info
      ensures forall k :: 0 <= k < old(|entries|) && k != index ==> entries[k] == old(entries)[k]
      ensures forall k :: old(|entries|) <= k < index ==> fresh(entries[k]) && entries[k].IsEmpty()
      ensures old(|entries|) <= index ==> Distinct(old(|entries|), index)
    {
      if index < numberOfInformationObjects {
        entries := entries[index := info];
      } else {
        if index > numberOfInformationObjects {
          SetNumberOfInformationObjects(index);
        }
        entries := entries + [info];
        numberOfInformationObjects := numberOfInformationObjects + 1;
      }
    }

    /** The reference stored at `index`. */
    method GetInformationObject(index: int) returns (info: Info?)
      requires Valid()
      ensures 0 <= index < |entries| ==> info == entries[index]
    {
      if 0 <= index < numberOfInformationObjects {
        info := entries[index];
      } else {
        info := null;
      }
    }

    /** Adds `info` after the last entry. */
    method Append(info: Info)
      requires Valid()
      modifies this
      ensures Valid() && entries == old(entries) + [info]
    {
      entries := entries + [info];
      numberOfInformationObjects := numberOfInformationObjects + 1;
    }

    /** Removes the entry referring to `info`. */
    method Remove(info: Info)
      requires Valid()
      modifies this
      ensures Valid()
      ensures info !in old(entries) ==> entries == old(entries)
      ensures multiset(old(entries))[info] == 1 ==>
                entries == Excise(old(entries), IndexOf(old(entries), info))
      ensures info in old(entries) ==> multiset(entries)[info] < multiset(old(entries))[info]
      ensures forall other :: other != info ==> multiset(entries)[other] == multiset(old(entries))[other]
    {
      var i := 0;
      while i < numberOfInformationObjects && entries[i] != info
        invariant 0 <= i <= |entries|
        invariant info !in entries[..i]
      {
        i := i + 1;
      }
      if i < numberOfInformationObjects {
        IndexOfUnique(entries, info, i);
        ExciseMultiset(entries, i);
        entries := Excise(entries, i);
        numberOfInformationObjects := numberOfInformationObjects - 1;
      } else {
        assert entries[..i] == entries;
      }
    }

    /** Removes the entry at position `idx`; later entries move down by one. */
    method RemoveAt(idx: int)
      requires Valid()
      modifies this
      ensures Valid()
      ensures 0 <= idx < old(|entries|) ==> entries == Excise(old(entries), idx)
    {
      if 0 <= idx < numberOfInformationObjects {
        entries := Excise(entries, idx);
        numberOfInformationObjects := numberOfInformationObjects - 1;
      }
    }

    /** Replaces all entries by those of `from`: the same references for a
        shallow copy, new instances with copied structure for a deep one. */
    method Copy(from: InformationVector, deep: bool := false)
      requires Valid() && from.Valid()
      modifies this
      ensures Valid() && |entries| == old(|from.entries|)
      ensures !deep ==> entries == old(from.entries)
      ensures deep ==> forall k :: 0 <= k < |entries| ==>
                fresh(entries[k]) && entries[k].keys == old(from.entries)[k].keys
      ensures deep ==> forall k :: 0 <= k < |entries| ==> entries[k] !in old(entries)
      ensures deep ==> Distinct(0, |entries|)
    {
      var source := from.entries;
      SetNumberOfInformationObjects(0);
      var i := 0;
      while i < |source|
        invariant Valid() && 0 <= i <= |source| && |entries| == i
        invariant !deep ==> entries == source[..i]
        invariant deep ==> forall k :: 0 <= k < i ==>
                    fresh(entries[k]) && entries[k].keys == source[k].keys
        invariant deep ==> Distinct(0, i)
      {
        if deep {
          var copy := new Info.Clone(source[i]);
          Append(copy);
        } else {
          Append(source[i]);
        }
        i := i + 1;
      }
    }
  }
}
