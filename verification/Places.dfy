/**
 Where the numbers, enumerations, pointers, opaques and container objects of a type are.

 The places of a type are a flat list, each with its address; the parts of a type are the types it is built from. What the operations promise is
 also said of every place or part, next to the program or the walk that brings it about.
 */
module Places {
  import opened Types

  datatype Spot = Spot(at: nat, typ: Type)

  ghost function PlacesOf(t: Type, off: nat): seq<Spot>
    decreases t, 0
  {
    match t
    case ArrayType(dimension, elem) => PlacesOfEach(elem, dimension, off)
    case CompoundType(fields, _) => PlacesOfFields(fields, off)
    case _ => [Spot(off, t)]
  }

  ghost function PlacesOfEach(elem: Type, k: nat, off: nat): seq<Spot>
    decreases elem, k + 1
  {
    if k == 0 then [] else PlacesOf(elem, off) + PlacesOfEach(elem, k - 1, off + Size(elem))
  }

  ghost function PlacesOfFields(fs: Fields, base: nat): seq<Spot>
    decreases fs, 0
  {
    if fs.FieldAt? then PlacesOf(fs.typ, base + fs.offset) + PlacesOfFields(fs.rest, base) else []
  }

  /** The type itself and all types that it is built from. */
  ghost function Parts(t: Type): seq<Type>
    decreases t
  {
    match t
    case ArrayType(_, elem) => [t] + Parts(elem)
    case ContainerType(_, _, elem) => [t] + Parts(elem)
    case CompoundType(fields, _) => [t] + PartsOfFields(fields)
    case _ => [t]
  }

  ghost function PartsOfFields(fs: Fields): seq<Type>
    decreases fs
  {
    if fs.FieldAt? then Parts(fs.typ) + PartsOfFields(fs.rest) else []
  }
}
