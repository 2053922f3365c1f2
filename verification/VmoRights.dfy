/** Rights to memory objects and to the pages mapped from them. */
module VmoRights {

  /** `map_` is the right to map the object at all; the others are page permissions. */
  datatype Rights = Rights(map_: bool, read: bool, write: bool, exec: bool)

  predicate Within(a: Rights, b: Rights) {
    (a.map_ ==> b.map_) && (a.read ==> b.read) && (a.write ==> b.write) && (a.exec ==> b.exec)
  }
}
