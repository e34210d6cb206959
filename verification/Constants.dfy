/** Protocol constants shared by several modules. */
module Constants {
  const VERSION := 1
  const NONCE_ID_SIZE := 16
}
