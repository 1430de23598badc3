/** Optional values, and the error numbers that the firmware returns negated. */
module Results {

  datatype Option<+T> = None | Some(value: T)

  const ENOENT := 2
  const EIO := 5
  const EAGAIN := 11
  const EACCES := 13
  const EBUSY := 16
  const ENODEV := 19
  const EINVAL := 22
  const ENOTTY := 25
  const ENOSPC := 28
  const EOVERFLOW := 75
  const ENOTSUP := 134
}
