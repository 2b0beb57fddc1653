/** The attribute callbacks of one keyval. */
module Callbacks {
  import opened MpiConstants
  import opened Options
  import opened Procedures

  /** What a table slot says while a registration has it and has not published it. */
  const KEYVAL_RESERVED := -1

  /** A keyval that MPI hands out: neither of the two values that mark a slot. */
  predicate IsKeyval(k: int) {
    k != MPI_KEYVAL_INVALID && k != KEYVAL_RESERVED
  }

  datatype Role = Copy | Delete

  datatype Pair = Pair(copyFn: Option<Proc>, deleteFn: Option<Proc>) {
    function Get(role: Role): Option<Proc> {
      if role == Copy then copyFn else deleteFn
    }

    function Set(role: Role, cb: Proc): Pair {
      if role == Copy then this.(copyFn := Some(cb)) else this.(deleteFn := Some(cb))
    }
  }

  const NEITHER := Pair(None, None)

  /** Which procedures were registered last, per keyval. */
  type Registry = map<int, Pair>

  function Lookup(r: Registry, keyval: int): Pair {
    if keyval in r then r[keyval] else NEITHER
  }

  function Register(r: Registry, keyval: int, role: Role, cb: Proc): Registry {
    r[keyval := Lookup(r, keyval).Set(role, cb)]
  }
}
