/** Fortran procedures, of which only the address matters. */
module Procedures {
  type Proc = nat
}
