/** Sizes shared by host and kernels. */
module Layout {
  const BLOB: nat := 4096
  const EXT_BLOB: nat := 8192
  const EXT_BYTES: nat := 262144
  const CELL: nat := 64
  const CELLS: nat := 128
}
