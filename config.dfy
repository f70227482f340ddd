/**
 The configuration record of the main process. In this version of the
 application it holds the toggle accelerator and nothing else.
 */
module Config {
  import opened Storage
  import Shortcut

  datatype ConfigRecord = ConfigRecord(shortcut: string)

  type ConfigFile = File<ConfigRecord>

  /** The configuration used whenever `config.json` is missing or cannot be
      read or parsed. */
  const DEFAULT_CONFIG := ConfigRecord(Shortcut.DEFAULT_SHORTCUT)

  /** `loadConfig`: the stored record, or the one default. */
  function LoadConfig(f: ConfigFile): (c: ConfigRecord)
    ensures f.Stored? ==> c == f.content
    ensures !f.Stored? ==> c.shortcut == "CommandOrControl+M"
  {
    LoadOr(f, DEFAULT_CONFIG)
  }

  /** What `saveConfig(c)` leaves on disk is what the next `loadConfig` reads. */
  lemma SaveThenLoad(c: ConfigRecord)
    ensures LoadConfig(Stored(c)) == c
  {
  }
}
