/** Option stands for a pointer that may be NULL: None is NULL, Some(x) points at x. */
module Wrappers {
  datatype Option<+T> = None | Some(value: T)
}

/**
 * The errno values the daemon returns, negated, as "-errno" codes (Linux numbering),
 * and the fixed-width integer types of its C interfaces.
 */
module Errno {
  const EAGAIN: int := 11
  const EINVAL: int := 22
  const EBADE: int := 52

  const UINT32_LIMIT: int := 0x1_0000_0000

  type uint8 = x: int | 0 <= x < 0x100
  type uint16 = x: int | 0 <= x < 0x1_0000
  type uint32 = x: int | 0 <= x < 0x1_0000_0000
}

/**
 * Addresses of things the model never looks into: function pointers, the libevent base,
 * the Avahi poll table, OpenSSL contexts, user data.
 */
module Foreign {
  datatype Handle = Handle(address: nat)
}
