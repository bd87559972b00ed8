/** Optional values and the error codes that several models share. */
module Common {

  datatype Option<T> = None | Some(value: T)

  const EINVAL := 22
  const ENOMEM := 12
  const EOVERFLOW := 75
  const ENOKEY := 126

  const BAD_FUNC_ARG := -173
}
