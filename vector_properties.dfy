/** Properties that relate several calls on one information vector, proved
    from the method contracts alone, as a caller would see them. */
module VectorProperties {
  import opened Information
  import opened EntrySeqs
  import opened InformationVectors

  /** Removing the last position right after an append restores the vector. */
  method AppendThenRemoveLast(v: InformationVector, info: Info)
    requires v.Valid()
    modifies v
    ensures v.Valid() && v.entries == old(v.entries)
  {
    var n := v.GetNumberOfInformationObjects();
    v.Append(info);
    v.RemoveAt(n);
    ExciseAppended(old(v.entries), info);
  }

  /** Appending a reference the vector does not hold, then removing it by
      reference, restores the vector. */
  method AppendThenRemove(v: InformationVector, info: Info)
    requires v.Valid() && info !in v.entries
    modifies v
    ensures v.Valid() && v.entries == old(v.entries)
  {
    v.Append(info);
    ghost var s := old(v.entries);
    assert (s + [info])[|s|] == info && info !in (s + [info])[..|s|] by {
      assert (s + [info])[..|s|] == s;
    }
    IndexOfUnique(s + [info], info, |s|);
    v.Remove(info);
    ExciseAppended(s, info);
  }

  /** Growing the vector and then shrinking it back to its old size restores
      the original entries. */
  method GrowThenShrink(v: InformationVector, n: nat)
    requires v.Valid() && |v.entries| <= n
    modifies v
    ensures v.Valid() && v.entries == old(v.entries)
  {
    var m := v.GetNumberOfInformationObjects();
    v.SetNumberOfInformationObjects(n);
    v.SetNumberOfInformationObjects(m);
  }

  /** Reading back an index just set yields the stored reference. */
  method SetThenGet(v: InformationVector, index: nat, info: Info) returns (got: Info?)
    requires v.Valid()
    modifies v
    ensures v.Valid() && got == info && index < |v.entries|
  {
    v.SetInformationObject(index, info);
    got := v.GetInformationObject(index);
  }

  /** A deep copy shares no entry with its source; a shallow copy shares every one. */
  method CopySharing(v: InformationVector, from: InformationVector, deep: bool)
    requires v.Valid() && from.Valid() && v != from
    modifies v
    ensures v.Valid() && |v.entries| == |from.entries|
    ensures deep ==> forall k :: 0 <= k < |v.entries| ==> v.entries[k] !in from.entries
    ensures !deep ==> forall k :: 0 <= k < |v.entries| ==> v.entries[k] == from.entries[k]
  {
    v.Copy(from, deep);
  }
}
