/**
 * The storage side of the extra-data slots: the three sparse-array factories the manager knows,
 * keyed by bit size, and the arrays they create. The array classes themselves are not part of
 * this model, so a factory is known only by its bit size and an array only by its bit size and
 * dimensions.
 */
module Factories {

  /** `TeraSparseArray4Bit.Factory`, `TeraSparseArray8Bit.Factory` or `TeraSparseArray16Bit.Factory`. */
  datatype Factory = SparseFactory(bitSize: int)

  /** The `TeraArray` that `Factory.create(sizeX, sizeY, sizeZ)` returns. */
  datatype TeraArray = SparseArray(bitSize: int, sizeX: int, sizeY: int, sizeZ: int)

  /** `teraArrayFactories`: the static table of supported bit sizes. */
  const TeraArrayFactories: map<int, Factory> :=
    map[4 := SparseFactory(4), 8 := SparseFactory(8), 16 := SparseFactory(16)]

  function Create(f: Factory, sizeX: int, sizeY: int, sizeZ: int): TeraArray {
    SparseArray(f.bitSize, sizeX, sizeY, sizeZ)
  }

  /** The table holds exactly the bit sizes 4, 8 and 16, each with the factory of that size. */
  lemma FactoriesTagged()
    ensures TeraArrayFactories.Keys == {4, 8, 16}
    ensures forall s :: s in TeraArrayFactories ==> TeraArrayFactories[s].bitSize == s
  {
  }
}
