/** The size limits of `src/protocol.h`. */
module Protocol {
  const HOSTNAME_LEN: nat := 64
  const MAX_CLIENTS: nat := 16
}
