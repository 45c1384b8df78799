/** Result codes of the library, and the limit it puts on lengths it reports. */
module Status {
  const OK: int := 0
  const ERR_INVALID: int := -1
  const ERR_NOMEM: int := -2
  const ERR_JSON: int := -3
  const ERR_MISSING: int := -4
  const ERR_AUTH: int := -5

  const INT_MAX: nat := 0x7fff_ffff
}
