/** Limits shared by the store, the wire formats and the pools. */
module Config {
  const MAX_KEY_LEN: nat := 1024
  const MAX_VALUE_LEN: nat := 1024 * 1024
}
