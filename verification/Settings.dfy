/** The build settings the modelled code depends on, at their defaults. */
module Settings {

  /** `HX_MAX_LINE`: the size of a line buffer, with the terminating NUL. */
  const MAX_LINE: nat := 2048

  /** `HX_RADIX_SORT_MIN_SIZE`: the radix sorts use insertion sort below it. */
  const RADIX_SORT_MIN_SIZE: nat := 32
}
