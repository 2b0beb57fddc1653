/** The error classes and keyval values that the modelled code names, with the values of the MPI ABI. */
module MpiConstants {
  const MPI_SUCCESS := 0
  const MPI_ERR_TYPE := 3
  const MPI_ERR_ARG := 13
  const MPI_ERR_OTHER := 16

  const MPI_KEYVAL_INVALID := 0
}
