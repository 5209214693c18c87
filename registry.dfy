/** The hash algorithm registry consulted by get_hash_type_data_by_name. */
module HashRegistry {
  import opened Wrappers
  import opened LibC

  /**
    A hash algorithm descriptor. `slot` stands for the descriptor's address
    in the registry's table; `hashname` is its canonical name.
  */
  datatype HashType = HashType(slot: nat, hashname: CStr)

  /** The registry: the descriptor each name resolves to. */
  type Registry = map<seq<byte>, HashType>

  /** get_hash_type_data_by_name(name, |name|): the descriptor, or None for NULL. */
  function Lookup(reg: Registry, name: seq<byte>): (r: Option<HashType>)
    ensures r.Some? <==> name in reg
    ensures r.Some? ==> r.value in reg.Values
    ensures Consistent(reg) && r.Some? ==> r.value.hashname == name
  {
    if name in reg then Some(reg[name]) else None
  }

  /** `h` is the descriptor the registry returns for `h`'s own name. */
  predicate Registered(reg: Registry, h: HashType)
  {
    h.hashname in reg && reg[h.hashname] == h
  }

  /** Every name resolves to a descriptor carrying that name. */
  predicate Consistent(reg: Registry)
  {
    forall n :: n in reg ==> reg[n].hashname == n
  }
}
