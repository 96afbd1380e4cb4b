/** The loader's fixed constants (public/js/backend.js, CONFIG) and its byte type. */
module Config {
  const DOWNLOAD_FAIL_PREFIX: string := "_eagler_dl_"
  /** Six hours: how long a recorded download failure stays active. */
  const FAIL_TIMEOUT_MS: int := 21600000
  const LAUNCH_DELAY_MS: nat := 500
  const LAUNCH_DELAY_CACHED_MS: nat := 1500
  const RETRY_DELAY_MS: nat := 1000
  /** Milliseconds in a day, the divisor of the cached copy's displayed age. */
  const DAY_MS: int := 86400000

  newtype byte = b: int | 0 <= b < 256
  type Bytes = seq<byte>
}
