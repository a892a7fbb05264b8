# theme_config: the theme-settings overlay of a Pelican plug-in

The theme_config plug-in for the Pelican static site generator lets a theme
ship a configuration file (by default `themeconf.py`, found either at the
path THEME_CONFIG names or inside the THEME directory). When Pelican fires
its `initialized` signal, the plug-in's `initialize` evaluates that file and
merges the settings it declares into Pelican's own settings. A list of
protected keys (THEME_CONFIG_PROTECT, by default ten built-in keys such as
PORT, THEME and SITEURL) is exempt: every protected key the theme's file
binds to a value other than None is dropped from the overlay. The
single-file version warns about every key it drops; the packaged version
warns only about a dropped key whose value differs from the user's.

The repository holds two versions of `initialize`, and both are modelled:

- the packaged plug-in (`pelican/plugins/theme_config/theme_config.py`,
  module `PackageThemeConfig`). It evaluates the theme's file with every
  setting visible, protected ones included. It remembers the user's value of
  each protected key, and warns only when the theme's value differs from it.
  Because the loader returns every upper-case name of the evaluated module,
  the context's own settings come back in the overlay. A protected key that
  comes back unchanged is dropped silently.
- the single-file plug-in (`theme_config.py`, module `RootThemeConfig`). It
  hides the protected keys from the theme's file. It warns about every
  protected key the file binds, even one re-declared with the user's value.

Layout:

- `PySettings` is the fragment of Python the code relies on. It holds values,
  the settings dictionary (a map, in which a key bound to None is distinct
  from an absent key), `Get` for `d.get(key)`, which gives None in both
  cases, and `GetOr` for `d.get(key, default)`, which tells them apart. The
  host object is the `Pelican` class, whose `settings` field is updated in
  place.
- `ThemeConfig` holds what both versions share:
  - the built-in protection list and the defaults;
  - the validation of THEME_CONFIG_PROTECT;
  - the choice of the file's path;
  - the loop `for p in protected: if d.get(p) is not None: d.pop(p)`. This is
    the function `Strip`, a left fold over the protection list. `StripSpec`
    characterises it: it removes exactly the bound protected keys, and pops
    them in protection-list order.
- Each version has a specification function `Initialized(pre, isFile, join,
  load)`. Its result is an `Effect`: the new settings, how the call ended,
  and the warnings in order.
  - Each version also has an imperative `Initialize` method on a `Pelican`
    object. Its loops carry invariants, and its postcondition ties the new
    state to `Initialized(old(pelican.settings), ...)`.
  - The properties the plug-in promises are lemmas about `Initialized`.
- The file system (`os.path.isfile`, `os.path.join`) and the evaluation of
  the theme's file (`load_config`) are function parameters. The evaluation
  gives `Loaded(bindings)` or `LoadFailed` (the file raised). The `Status`
  of a merge records the path, the context the file was evaluated in, and the
  bindings it returned, so that lemmas can speak about them.

The evident intent of the protection list is that a theme can never change
a protected key's value. The code tests `settings.get(p) is not None`, so a protected
key the theme's file binds to None is neither popped nor warned about, and
`update` sets it to None. The model follows the code: `NoneGetsThrough`
states this behaviour for both versions.

## Model

| member | source | states |
|---|---|---|
| PySettings.Get | pelican/plugins/theme_config/theme_config.py:133 | `d.get(key)` is the bound value when a string key is bound, and None otherwise; a result other than None means the key is bound to it |
| ThemeConfig.Defaults | pelican/plugins/theme_config/theme_config.py:104-106 | without THEME_CONFIG_PROTECT the protection list is the ten built-in keys of PROTECTED_OPTIONS (PORT, THEME and THEME_CONFIG_PROTECT among them), accepted without a warning; without THEME_CONFIG the file looked for is `themeconf.py` (the single-file version reads the same defaults); the two reads are `ThemeConfig.ProtectSetting` and `ThemeConfig.OverlayName`, both `PySettings.GetOr`, that is `d.get(key, default)` |
| ThemeConfig.Normalise | pelican/plugins/theme_config/theme_config.py:110-122 | a list is taken as it is; a string becomes a one-element list and adds the warning; anything else (None, a tuple, a number) raises; the single-file version validates the same way |
| ThemeConfig.StringIsSingletonList | pelican/plugins/theme_config/theme_config.py:110-116 | a string protects exactly what the one-element list holding it protects, plus one warning |
| ThemeConfig.Locate | pelican/plugins/theme_config/theme_config.py:124-127 | the path as given if it is a file, else the path joined to THEME if that is a file, else no file; the given path wins whenever it is a file; the single-file version chooses the same way |
| ThemeConfig.Strip | pelican/plugins/theme_config/theme_config.py:138-145 | the pop loop as a left fold over the protection list: the dictionary left has only keys of the one it started from, and at most one key is popped per list entry; `StripSpec` gives its full meaning. The single-file version runs it at lines 84-86 and 90-94 |
| ThemeConfig.StripSpec | pelican/plugins/theme_config/theme_config.py:138-145 | the pop loop leaves the dictionary without exactly the protected keys bound to a value other than None; it pops exactly those keys, each once, in the order the protection list first names them; the single-file version runs the same loop on the copy of the settings and on what the theme's file declared |
| ThemeConfig.WarnedSpec | theme_config.py:90-94 | one override warning per popped key and no other, in the order popped; none is a validation warning |
| ThemeConfig.UpdateWithStripped | pelican/plugins/theme_config/theme_config.py:147 | `update` with the stripped overlay: a bound protected key keeps its old value or stays absent; every other overlay key is added or overwritten; every key the overlay lacks is untouched |
| ThemeConfig.NoneOverridesProtected | pelican/plugins/theme_config/theme_config.py:139 | a protected key the overlay binds to None survives the loop, and `update` sets it to None |
| PackageThemeConfig.Preserved | pelican/plugins/theme_config/theme_config.py:132-134 | the `preserved` dictionary: exactly the protected keys the settings bind to a value other than None, each with the user's value |
| PackageThemeConfig.Conflicts | pelican/plugins/theme_config/theme_config.py:140-144 | the popped keys that are warned about, in order; there are never more of them than popped keys (`ConflictsMembers` and `ConflictsOrdered` give their meaning) |
| PackageThemeConfig.Initialized | pelican/plugins/theme_config/theme_config.py:103-147 | the effect of `initialize` (settings, outcome, warnings) up to the gaps listed under its name in "## Left out"; any outcome other than a merge leaves the settings as they were, and a merge evaluates the theme's file with all the settings as its context |
| PackageThemeConfig.CollectPreserved | pelican/plugins/theme_config/theme_config.py:132-134 | `preserved` holds exactly the protected keys the settings bind to a value other than None, each with the user's value |
| PackageThemeConfig.StripOverlay | pelican/plugins/theme_config/theme_config.py:138-145 | the loop's kept overlay and warnings are the stripped overlay and the warnings for the popped keys whose value differs from the preserved one |
| PackageThemeConfig.ConflictsMembers | pelican/plugins/theme_config/theme_config.py:140-144 | a popped key is warned about exactly when it is preserved and the overlay's value differs from the preserved one |
| PackageThemeConfig.ConflictsOrdered | pelican/plugins/theme_config/theme_config.py:138-144 | the warned keys keep the protection-list order of the popped keys |
| PackageThemeConfig.Initialize | pelican/plugins/theme_config/theme_config.py:103-147 | the host's new settings, the outcome and the warnings are those of `Initialized` on the old settings |
| PackageThemeConfig.ErrorsChangeNothing | pelican/plugins/theme_config/theme_config.py:110-122 | a raise leaves the settings as they were; the protection-list error is raised exactly when the setting is neither a list nor a string, and logs nothing |
| PackageThemeConfig.NoFileNoChange | pelican/plugins/theme_config/theme_config.py:124-127 | with no file at either path the settings are unchanged, only the validation warning can be logged, and the theme's file is never evaluated (any loader gives the same effect) |
| PackageThemeConfig.ContextIsAllSettings | pelican/plugins/theme_config/theme_config.py:130-136 | the theme's file is evaluated at the located path with all the settings, protected ones included, as its context |
| PackageThemeConfig.MergedForm | pelican/plugins/theme_config/theme_config.py:130-147 | a merge happens only with an accepted protection list; its settings are the old ones updated with the stripped overlay, and its warnings are the validation warning followed by the override warnings |
| PackageThemeConfig.MergeProtects | pelican/plugins/theme_config/theme_config.py:138-147 | after a merge every protected key the theme binds to a value other than None keeps its old value or stays absent; every other key the theme binds is added or overwritten; every other setting is untouched |
| PackageThemeConfig.NoneGetsThrough | pelican/plugins/theme_config/theme_config.py:138-147 | a protected key the theme binds to None ends up None |
| PackageThemeConfig.MergeWarnings | pelican/plugins/theme_config/theme_config.py:138-145 | after the validation warning there is an override warning for a key exactly when the key is protected, the theme binds it to a value other than None, the user had a value other than None, and the two differ; these warnings follow protection-list order |
| PackageThemeConfig.OneKeyMerge | pelican/plugins/theme_config/theme_config.py:132-147 | with a one-key protection list the whole effect is given in closed form: the key is dropped when the theme binds it to a value other than None, and warned about only when it also changes the user's value |
| RootThemeConfig.Initialized | theme_config.py:60-96 | the effect of `initialize` (settings, outcome, warnings) up to the gaps listed under its name in "## Left out"; any outcome other than a merge leaves the settings as they were, and a merge evaluates the theme's file in a context whose keys are among the settings' keys |
| RootThemeConfig.StripContext | theme_config.py:84-86 | the context holds exactly the settings that are not protected keys bound to a value other than None, with their values |
| RootThemeConfig.StripOverlay | theme_config.py:90-94 | the loop's kept overlay and warnings are the stripped overlay and one warning per popped key |
| RootThemeConfig.Initialize | theme_config.py:60-96 | the host's new settings, the outcome and the warnings are those of `Initialized` on the old settings |
| RootThemeConfig.ErrorsChangeNothing | theme_config.py:65-74 | a raise leaves the settings as they were; the protection-list error is raised exactly when the setting is neither a list nor a string, and logs nothing |
| RootThemeConfig.NoFileNoChange | theme_config.py:76-80 | with no file at either path the settings are unchanged, only the validation warning can be logged, and the theme's file is never evaluated |
| RootThemeConfig.ContextHidesProtected | theme_config.py:83-88 | the theme's file is evaluated at the located path in a context without the protected keys bound to a value other than None; every other setting is passed with its value |
| RootThemeConfig.MergedForm | theme_config.py:83-96 | a merge happens only with an accepted protection list; its context is the stripped settings, its settings are the old ones updated with the stripped overlay, and its warnings are the validation warning followed by one per popped key |
| RootThemeConfig.MergeProtects | theme_config.py:90-96 | after a merge every protected key the theme binds to a value other than None keeps its old value or stays absent; every other key the theme binds is added or overwritten; every other setting is untouched |
| RootThemeConfig.NoneGetsThrough | theme_config.py:90-96 | a protected key the theme binds to None ends up None |
| RootThemeConfig.MergeWarnings | theme_config.py:90-94 | after the validation warning there is an override warning for a key exactly when the key is protected and the theme binds it to a value other than None, whatever the user's value; these warnings follow protection-list order |
| RootThemeConfig.OneKeyMerge | theme_config.py:83-96 | with a one-key protection list the whole effect is given in closed form: the key is hidden from the file when the user binds it to a value other than None, and dropped and warned about whenever the theme binds it to a value other than None |
| RootThemeConfig.PortChangeScenario | theme_config.py:83-96 | a site protecting PORT whose theme changes PORT and SITENAME: PORT is hidden from the file, SITENAME changes, PORT does not, and PORT is warned about |
| RootThemeConfig.PortRedeclareScenario | theme_config.py:90-94 | a theme that re-declares PORT with the site's own value and adds EXTRA: EXTRA is added, and PORT is still warned about |

## Left out

- The evaluation of the theme's file (`load_config`, lines 42-60 of the packaged version and 39-57 of the single-file one) is a parameter `load`: import machinery, module execution and `get_settings_from_module` are not modelled. An exception raised while evaluating is `LoadFailed`.
- `os.path.isfile` and `os.path.join` are parameters `isFile` and `join`. `join(None, name)` raises a TypeError in Python when THEME is unset; `join` is a total function in the model, so that error is not modelled.
- A protected-list element that Python cannot hash (a list inside THEME_CONFIG_PROTECT) makes `dict.get` raise a TypeError. The model treats it like any other element that is not a string: `Get` gives None and the element is skipped.
- Python's `!=` on setting values is modelled as structural equality of `Value`. User-defined `__eq__` and objects that compare by identity are not modelled, nor is Python's equality across numeric types (`1 == True == 1.0`): `Int(1)`, `Bool(true)` and an `Other` float differ in the model. In the packaged version a theme that replaces `1` by `True` is silent in Python and warned about in the model.
- `copy.deepcopy` is modelled as taking the settings as they are: values are immutable in Dafny, so the context cannot alias `pelican.settings`. The objects inside `preserved`, however, are the very objects of the context (see the `PackageThemeConfig.MergeWarnings` line below).
- PackageThemeConfig.MergeWarnings: states the override warning as "the theme's value differs from the user's original value". In Python `preserved` holds the same objects as the context the theme's file runs in (lines 130-136 and 58), so a theme that changes a preserved mutable value in place (`PLUGINS += ["b"]` with PLUGINS protected) changes `preserved[p]` too; the comparison at line 141 then finds them equal and nothing is logged. The model, whose values cannot be changed in place, warns in that case. The settings that result are the same.
- PackageThemeConfig.MergedForm: the same: its warnings clause compares each popped key with `Preserved(p.keys, pre)`, the user's original value, so an in-place change of a preserved mutable value, silent in Python, is stated as warned.
- PackageThemeConfig.Initialized: the same: its warnings compare with the user's original value; an in-place change of a preserved mutable value is silent in Python. It also has no outcome for the TypeError of `os.path.isfile` on a THEME_CONFIG that is not a path (line 124), or for a `copy.deepcopy` that fails (line 130).
- RootThemeConfig.Initialized: has no outcome for the TypeError of `os.path.isfile` on a THEME_CONFIG that is not a path (line 76), or for a `copy.deepcopy` that fails (line 83).
- PackageThemeConfig.OneKeyMerge: the same: its warning condition compares with the user's original value, and misses that an in-place change of a preserved mutable value is silent in Python.
- PackageThemeConfig.Initialize: the same: its warnings are those of `Initialized`, which compares with the user's original value; an in-place change of a preserved mutable value is silent in Python.
- PackageThemeConfig.Initialize: `copy.deepcopy(pelican.settings)` (line 130) raises when a setting cannot be copied (a module object in PLUGINS, for example); the model always copies, so that outcome is missing.
- RootThemeConfig.Initialize: the same: `copy.deepcopy` (line 83) can raise on a setting that cannot be copied; the model always copies.
- ThemeConfig.Locate: `isFile` is total on every `Value`. In Python `os.path.isfile` raises a TypeError when THEME_CONFIG is not a path (None or a list, say), at line 124 of the packaged version and 76 of the single-file one; the model instead asks `isFile` about that value and can go on to merge.
- PackageThemeConfig.Initialize and RootThemeConfig.Initialize: because of the two points above, neither has an outcome for the TypeError of `os.path.isfile` on a non-path THEME_CONFIG or for a failing `copy.deepcopy`.
- The log messages are modelled as `Warning` values without their text. The two versions differ in the text of the override warning (a space after the comma); that is not modelled. The `logger.debug` calls are not modelled.
- PackageThemeConfig.Initialize: does not model what follows the update (lines 149-169): memorising the `initialized` receivers, `init_plugins` (lines 63-100) and calling the newly registered receivers. These act on Python's plug-in and signal machinery, not on the settings.
- `register` (lines 174-176 and 99-101) only connects `initialize` to Pelican's `initialized` signal; it has no behaviour of its own to model.
- The docstring of the package's `__init__.py` names the option THEME_CONFIG_PROTECTED, but the code reads THEME_CONFIG_PROTECT. The model follows the code.
- The `context` and `bindings` parts of `Status` are a modelling device that lets lemmas speak about what the loader saw and returned; the plug-in does not return them.
