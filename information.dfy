/** The information objects (vtkInformation) an information vector holds.
    Their inner structure is not part of this model: an object is seen only
    through the set of names of the keys it currently holds. */
module Information {

  class Info {
    /** Names of the keys this object holds; the values are not modelled. */
    var keys: set<string>

    /** The object holds no key at all. */
    predicate IsEmpty()
      reads this
    {
      keys == {}
    }

    /** A new, empty information object. */
    constructor ()
      ensures IsEmpty()
    {
      keys := {};
    }

    /** A new instance carrying a deep copy of `from`'s structure. */
    constructor Clone(from: Info)
      ensures keys == from.keys
    {
      keys := from.keys;
    }
  }
}
