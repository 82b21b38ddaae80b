/** The kernel's error numbers; calls return them negated. */
module Errno {
  const ENOMEM: int := 12
  const EBUSY: int := 16
  const ENODEV: int := 19
  const EINVAL: int := 22
  const ENOIOCTLCMD: int := 515
}
