/** The process-wide constants of the image tool (the CONFIG object of index.js). */
module Config {

  /** Largest image accepted, from a file or a download: 10 MiB. */
  const MAX_IMAGE_SIZE: nat := 10 * 1024 * 1024

  /** Idle time after which a download is aborted; the timer itself is an
      abstract `TimedOut` outcome of a reply (see Download). */
  const DOWNLOAD_TIMEOUT_MILLIS: nat := 30000

  /** The allow-list of lower-case file extensions, in the order the source lists them. */
  const SUPPORTED_FORMATS: seq<string> := [".jpg", ".jpeg", ".png", ".gif", ".webp"]
}
