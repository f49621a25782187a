/** The error numbers the modelled code returns. */
module Errno {
  const EBADF := -9
  const ENOMEM := -12
  const EFAULT := -14
  const EINVAL := -22
  const ENFILE := -23
  const ERANGE := -34
  const ENOTSOCK := -88
  const EMSGSIZE := -90
  const EAFNOSUPPORT := -97
  const ECONNABORTED := -103
}
