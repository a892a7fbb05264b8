/**
 * Pelican's settings as the theme-config plug-in sees them: a dictionary from
 * setting names to Python values, owned by the `Pelican` object and updated in
 * place, plus the warnings and errors the plug-in can produce.
 */
module PySettings {

  /** A Python value that a setting can hold. Equality is structural. */
  datatype Value =
    | None
    | Bool(b: bool)
    | Int(i: int)
    | Str(s: string)
    | List(items: seq<Value>)
    | Other(name: string)  // any other object: a tuple, a dict, a class, ...

  /** A settings dictionary: setting names are strings. */
  type Settings = map<string, Value>

  /** `d.get(key)`: the value bound to `key`, or None when `key` is unbound.
      Only a string can be bound, so any other key gives None. */
  function Get(d: Settings, key: Value): (v: Value)
    ensures v != None ==> key.Str? && key.s in d && d[key.s] == v
    ensures key.Str? && key.s in d ==> v == d[key.s]
  {
    if key.Str? && key.s in d then d[key.s] else None
  }

  /** `d.get(key, default)`. */
  function GetOr(d: Settings, key: string, default: Value): Value
  {
    if key in d then d[key] else default
  }

  /** The host object handed to the plug-in; `settings` is updated in place. */
  class Pelican {
    var settings: Settings

    constructor (settings: Settings)
      ensures this.settings == settings
    {
      this.settings := settings;
    }
  }

  /** A warning the plug-in logs. */
  datatype Warning =
    | ProtectIsString            // THEME_CONFIG_PROTECT was a string, not a list
    | CannotOverride(key: string)  // "Theme cannot override <key>, ignoring"

  /** An exception that ends `initialize`. */
  datatype Error =
    | BadProtectList  // THEME_CONFIG_PROTECT is neither a list nor a string
    | LoadError       // evaluating the theme's configuration file raised

  /** What evaluating the theme's configuration file gives. */
  datatype LoadResult = Loaded(bindings: Settings) | LoadFailed

  /** How `initialize` ended. When the theme's file was evaluated, `context`
      is what it was evaluated in and `bindings` is what it declared. */
  datatype Status =
    | Raised(error: Error)
    | NoOverlay
    | Merged(path: Value, context: Settings, bindings: Settings)

  /** Everything `initialize` does that can be observed: the host's settings
      afterwards, how it ended, and the warnings it logged, in order. */
  datatype Effect = Effect(settings: Settings, status: Status, warnings: seq<Warning>)
}
