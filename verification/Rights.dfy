/** Directory rights: a set of mask bits, of which the contract defines six. */
module Rights {

  /** A 64-bit mask as the set of its one bits. */
  type Mask = set<nat>

  const ENUMERATE: nat := 0
  const READ: nat := 1
  const WRITE: nat := 2
  const CREATE: nat := 3
  const REMOVE: nat := 4
  const DESCEND: nat := 5

  const ALL: Mask := {ENUMERATE, READ, WRITE, CREATE, REMOVE, DESCEND}

  /** The only constructor that invents a rights set: undefined bits are dropped. */
  function Root(mask: Mask): Mask { mask * ALL }

  /** The child's rights: what the parent has, intersected with what was asked for. */
  function Attenuate(rights: Mask, requested: Mask): Mask { rights * requested }

  predicate Allows(rights: Mask, needed: Mask) { needed <= rights }

  predicate DeniesAll(rights: Mask, any: Mask) { rights !! any }
}
