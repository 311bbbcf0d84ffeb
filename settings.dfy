/** The two settings under `gitkeep` that the command and the watcher read (extension.js
    lines 64-66 and 98-100), with the fall-backs JavaScript's `||` applies. */
module Settings {
  datatype Option<T> = None | Some(value: T)

  const DefaultFileName: string := ".gitkeep"

  /** `config.get('fileName') || '.gitkeep'`: an unset or empty name falls back to the
      default, so the marker's name is never empty. */
  function FileName(setting: Option<string>): (name: string)
    ensures name != []
    ensures setting.Some? && setting.value != [] ==> name == setting.value
    ensures setting.None? || setting.value == [] ==> name == DefaultFileName
  {
    if setting.Some? && setting.value != [] then setting.value else DefaultFileName
  }

  /** `config.get('ignorePatterns') || []`: an array is never falsy, so only an unset
      list falls back to the empty one. */
  function IgnoreList(setting: Option<seq<string>>): seq<string>
  {
    if setting.Some? then setting.value else []
  }
}
