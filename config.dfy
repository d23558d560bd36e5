/** The extension's configuration constants (config.js). */
module Config {

  /** History depth used when nothing is stored. */
  const DEFAULT_TAB_HISTORY_SIZE: int := 5

  /** Smallest history depth the settings page accepts. */
  const MIN_TAB_HISTORY_SIZE: int := 2

  /** Largest history depth the settings page accepts. */
  const MAX_TAB_HISTORY_SIZE: int := 20
}
