# vtkInformationVector, modelled in Dafny

VTK passes its pipeline information to every `vtkAlgorithm::ProcessRequest`
call in `vtkInformationVector` objects: ordered, resizable vectors of
references to `vtkInformation` objects. This project models that class as a
Dafny class, `InformationVectors.InformationVector`, with mutating methods
for its public operations:

- resizing, where growing adds fresh empty information objects and shrinking drops the high indices;
- indexed set, which auto-expands and fills any gap with fresh empty objects;
- indexed get;
- append;
- removal by reference and by index;
- shallow and deep copy.

The class keeps the stored references in a `seq<Info>` field `entries`.
It keeps the cached count in its own field `numberOfInformationObjects`, as
the C++ class does. The invariant `Valid()` says the two always agree. Every
method requires it and re-establishes it.

`vtkInformation` itself is an opaque stand-in, `Information.Info`. An object
is seen only through the set of names of the keys it holds. Its parameterless
constructor yields a fresh, empty object. Its `Clone` constructor yields a new
instance with the same keys, which is what a deep copy of one entry means here.

Files:

- `entry_seqs.dfy`: value-level helpers on the entry sequence, with lemmas. `Excise` takes out one position. `IndexOf` finds the first position holding a reference.
- `information.dfy`: the `Info` stand-in.
- `information_vector.dfy`: the vector class.
- `vector_properties.dfy`: properties that relate several calls. Each is a method proved only from the class's contracts.

Dafny has no overloading, so the C++ `Remove(int)` is the method `RemoveAt`.
The C++ `vtkTypeBool deep` flag is a `bool`, and it defaults to `false` (a shallow copy) as in the C++ declaration.

## Model

| member | source | states |
|---|---|---|
| `EntrySeqs.Excise` | Common/Core/vtkInformationVector.h:70-71 | removing a position shortens the vector by one, keeps the entries below it and shifts the entries above it down by one |
| `EntrySeqs.IndexOf` | Common/Core/vtkInformationVector.h:70 | the position found holds the searched-for reference and no earlier position does |
| `EntrySeqs.IndexOfUnique` | Common/Core/vtkInformationVector.h:70 | a position holding the reference with no earlier occurrence is exactly the one the search finds |
| `EntrySeqs.ExciseMultiset` | Common/Core/vtkInformationVector.h:70-71 | removing a position drops exactly one copy of its reference and leaves every other reference's multiplicity alone |
| `EntrySeqs.ExciseSoleOccurrence` | Common/Core/vtkInformationVector.h:70 | after removing a reference that occurred once, the vector no longer holds it |
| `EntrySeqs.ExciseAppended` | Common/Core/vtkInformationVector.h:67-71 | removing the last position undoes an append |
| `Information.Info.constructor` | Common/Core/vtkInformationVector.h:45-47 | a newly created information object is empty |
| `Information.Info.Clone` | Common/Core/vtkInformationVector.h:83-86 | a deep-copied information object is a new instance with the same keys as its source |
| `InformationVectors.InformationVector.constructor` | Common/Core/vtkInformationVector.h:39 | a new vector is valid and holds no entries |
| `InformationVectors.InformationVector.GetNumberOfInformationObjects` | Common/Core/vtkInformationVector.h:50 | the cached count equals the number of stored entries |
| `InformationVectors.InformationVector.SetNumberOfInformationObjects` | Common/Core/vtkInformationVector.h:44-51 | the count becomes n. Shrinking keeps exactly the old entries 0..n-1. Growing keeps the old entries and adds fresh, empty, pairwise distinct objects |
| `InformationVectors.InformationVector.SetInformationObject` | Common/Core/vtkInformationVector.h:54-61 | afterwards the entry at index is info and the count is at least index+1. Entries at other old indices are unchanged. Any gap between the old end and index holds fresh, empty, distinct objects |
| `InformationVectors.InformationVector.GetInformationObject` | Common/Core/vtkInformationVector.h:62 | for an index inside the vector it returns the stored reference |
| `InformationVectors.InformationVector.Append` | Common/Core/vtkInformationVector.h:66-69 | the new entries are the old entries followed by info: the count grows by one, info is last and earlier entries are unchanged |
| `InformationVectors.InformationVector.Remove` | Common/Core/vtkInformationVector.h:70 | an absent reference leaves the vector unchanged. A reference held once is cut out of its position, with the rest kept in order. In general the reference's multiplicity goes down and every other reference keeps its multiplicity |
| `InformationVectors.InformationVector.RemoveAt` | Common/Core/vtkInformationVector.h:71 | for an index inside the vector, that entry is cut out and the later entries move down by one |
| `InformationVectors.InformationVector.Copy` | Common/Core/vtkInformationVector.h:81-88 | the previous entries are replaced and the count equals from's count. Shallow: the entries are from's references. Deep: each entry is a fresh, distinct instance with the keys of from's entry at that index, and none is an old entry |
| `VectorProperties.AppendThenRemoveLast` | Common/Core/vtkInformationVector.h:69-71 | Append followed by Remove at the old count restores the vector |
| `VectorProperties.AppendThenRemove` | Common/Core/vtkInformationVector.h:69-70 | appending a reference not yet held and then removing it by reference restores the vector |
| `VectorProperties.GrowThenShrink` | Common/Core/vtkInformationVector.h:45-51 | growing and then shrinking back to the old count restores the original entries |
| `VectorProperties.SetThenGet` | Common/Core/vtkInformationVector.h:56-62 | reading an index right after setting it yields the reference that was set |
| `VectorProperties.CopySharing` | Common/Core/vtkInformationVector.h:81-88 | between two distinct vectors, a shallow copy holds the source's reference at every index, and no entry of a deep copy is any entry of the source |

## Left out

- Only the header of `vtkInformationVector` is modelled. `vtkInformationVector.cxx` is not part of this model, so behaviour the header does not document is left open in the contracts, as the entries below say. The one exception is self-copy, described under Copy below.
- InformationVectors.InformationVector.GetInformationObject: the contract says nothing for an index outside the vector, because the header does not say what is returned there. The body returns null.
- InformationVectors.InformationVector.RemoveAt: the contract promises only the invariant for an index outside the vector, because the header does not say what happens there. The body leaves the vector unchanged.
- InformationVectors.InformationVector.Remove: for a reference held more than once, the contract promises only the multiset facts, because the header does not say how many copies are removed or which. The body removes the first one.
- InformationVectors.InformationVector.Copy: deep copy is modelled as "a fresh, distinct instance with the same key names". Recursive copying of key values and nested vectors is not modelled. For a self-copy (`from == this`) the model reads from's entries before clearing, and Copy's contract fixes that outcome too: a shallow self-copy leaves the entries unchanged, and a deep one replaces every entry with a fresh clone. The header's "copy all entries from" and "previously existing entries are removed" conflict in that case, so this is the model's choice.
- Null arguments: `info` parameters and stored entries are non-null `Info` references, because the header does not say what a null entry means.
- Negative counts and indices: the `n` of SetNumberOfInformationObjects and the `index` of SetInformationObject are `nat`, because the header gives no meaning to negative values.
- The 32-bit width of `int` counts and indices is not modelled; Dafny integers are unbounded.
- Garbage collection and reference counting (`UsesGarbageCollector`, `ReportReferences`, `Register`/`UnRegister` of entries), `PrintSelf` and `New()`'s factory mechanism are left out. They concern object lifetime and output, not the vector's contents.
- The other files of the repository, which cover MPI process control, colour lookup tables, area picking, CGNS file series and point placement, are not part of this model.
