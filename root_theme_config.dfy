/**
 * `initialize` of the single-file plug-in (theme_config.py): the protected
 * settings bound to a value other than None are hidden from the theme's file;
 * afterwards every protected key the file binds to a value other than None is
 * dropped, and each is warned about.
 */
module RootThemeConfig {
  import opened PySettings
  import opened ThemeConfig

  /** What `initialize` does to settings `pre`. The file system is `isFile`
      and `join`; evaluating the theme's file is `load`. */
  function Initialized(
    pre: Settings, isFile: Value -> bool, join: (Value, Value) -> Value, load: (Value, Settings) -> LoadResult
  ): (e: Effect)
    ensures !e.status.Merged? ==> e.settings == pre
    ensures e.status.Merged? ==> e.status.context.Keys <= pre.Keys
  {
    match Normalise(ProtectSetting(pre))
    case Rejected => Effect(pre, Raised(BadProtectList), [])
    case Accepted(protected, w0) =>
      match Locate(OverlayName(pre), GetOr(pre, "THEME", None), isFile, join)
      case NotFound => Effect(pre, NoOverlay, w0)
      case Found(path) =>
        var context := Strip(protected, pre).0;
        match load(path, context)
        case LoadFailed => Effect(pre, Raised(LoadError), w0)
        case Loaded(bindings) =>
          var stripped := Strip(protected, bindings);
          Effect(pre + stripped.0, Merged(path, context, bindings), w0 + Warned(stripped.1))
  }

  /** The loop that pops the protected keys from the copy of the settings
      before the theme's file sees it. */
  method StripContext(protected: seq<Value>, settings: Settings) returns (context: Settings)
    ensures context == Strip(protected, settings).0
    ensures forall k :: k in context <==> k in settings && !(Str(k) in protected && settings[k] != None)
    ensures forall k :: k in context ==> context[k] == settings[k]
  {
    context := settings;
    ghost var popped: seq<string> := [];
    for i := 0 to |protected|
      invariant context == Strip(protected[..i], settings).0 && popped == Strip(protected[..i], settings).1
    {
      assert protected[..i + 1][..i] == protected[..i];
      var p := protected[i];
      if Get(context, p) != None {
        context, popped := context - {p.s}, popped + [p.s];
      }
    }
    assert protected[..|protected|] == protected;
    StripSpec(protected, settings);
  }

  /** The loop that pops the protected keys from what the theme's file
      declared, warning about each one popped. */
  method StripOverlay(protected: seq<Value>, overlay: Settings) returns (kept: Settings, warnings: seq<Warning>)
    ensures kept == Strip(protected, overlay).0
    ensures warnings == Warned(Strip(protected, overlay).1)
  {
    kept, warnings := overlay, [];
    ghost var popped: seq<string> := [];
    for i := 0 to |protected|
      invariant kept == Strip(protected[..i], overlay).0 && popped == Strip(protected[..i], overlay).1
      invariant warnings == Warned(popped)
    {
      assert protected[..i + 1][..i] == protected[..i];
      var p := protected[i];
      if Get(kept, p) != None {
        WarnedAppend(popped, p.s);
        warnings := warnings + [CannotOverride(p.s)];
        kept, popped := kept - {p.s}, popped + [p.s];
      }
    }
    assert protected[..|protected|] == protected;
  }

  /** `initialize(pelican)`. */
  method Initialize(
    pelican: Pelican, isFile: Value -> bool, join: (Value, Value) -> Value, load: (Value, Settings) -> LoadResult
  ) returns (status: Status, warnings: seq<Warning>)
    modifies pelican
    ensures var e := Initialized(old(pelican.settings), isFile, join, load);
      pelican.settings == e.settings && status == e.status && warnings == e.warnings
  {
    ghost var pre := pelican.settings;
    var themeConfig := GetOr(pelican.settings, "THEME_CONFIG", Str(DEFAULT_THEME_CONFIG));
    var protectedSetting := GetOr(pelican.settings, "THEME_CONFIG_PROTECT", PROTECTED_OPTIONS);
    var protected: seq<Value>;
    warnings := [];

    if !protectedSetting.List? {
      if protectedSetting.Str? {
        warnings := warnings + [ProtectIsString];
        protected := [protectedSetting];
      } else {
        return Raised(BadProtectList), warnings;
      }
    } else {
      protected := protectedSetting.items;
    }
    assert Normalise(ProtectSetting(pre)) == Accepted(protected, warnings);

    if !isFile(themeConfig) {
      themeConfig := join(GetOr(pelican.settings, "THEME", None), themeConfig);
    }
    if !isFile(themeConfig) {
      return NoOverlay, warnings;
    }
    assert Locate(OverlayName(pre), GetOr(pre, "THEME", None), isFile, join) == Found(themeConfig);

    var settings := StripContext(protected, pelican.settings);
    var loaded := load(themeConfig, settings);
    if loaded.LoadFailed? {
      return Raised(LoadError), warnings;
    }
    var kept, overrides := StripOverlay(protected, loaded.bindings);
    warnings := warnings + overrides;
    pelican.settings := pelican.settings + kept;
    status := Merged(themeConfig, settings, loaded.bindings);
  }

  /** Each exception leaves the settings as they were; the bad protection list
      is detected before anything else happens, and only when the setting is
      neither a list nor a string (an explicit None included). */
  lemma ErrorsChangeNothing(pre: Settings, isFile: Value -> bool, join: (Value, Value) -> Value, load: (Value, Settings) -> LoadResult)
    ensures var e := Initialized(pre, isFile, join, load);
      && (e.status.Raised? ==> e.settings == pre)
      && (e.status == Raised(BadProtectList) <==> !ProtectSetting(pre).List? && !ProtectSetting(pre).Str?)
      && (e.status == Raised(BadProtectList) ==> e.warnings == [])
  {
  }

  /** With no file at the given path nor under THEME, nothing changes, the
      loader does not matter, and no override warning is logged. */
  lemma NoFileNoChange(
    pre: Settings, isFile: Value -> bool, join: (Value, Value) -> Value,
    load: (Value, Settings) -> LoadResult, otherLoad: (Value, Settings) -> LoadResult
  )
    requires Normalise(ProtectSetting(pre)).Accepted?
    requires !isFile(OverlayName(pre)) && !isFile(join(GetOr(pre, "THEME", None), OverlayName(pre)))
    ensures var e := Initialized(pre, isFile, join, load);
      && e.settings == pre && e.status == NoOverlay
      && e.warnings == Normalise(ProtectSetting(pre)).warnings
      && (forall k :: CannotOverride(k) !in e.warnings)
      && e == Initialized(pre, isFile, join, otherLoad)
  {
  }

  /** The theme's file is evaluated at the located path, in a context that is
      the settings without the protected keys bound to a value other than
      None; every other setting is passed as it is. */
  lemma {:induction false} ContextHidesProtected(
    pre: Settings, isFile: Value -> bool, join: (Value, Value) -> Value, load: (Value, Settings) -> LoadResult
  )
    ensures var e := Initialized(pre, isFile, join, load);
      e.status.Merged? ==>
        var ps, ctx := Normalise(ProtectSetting(pre)).keys, e.status.context;
        && (forall k :: k in ctx <==> k in pre && !(Str(k) in ps && pre[k] != None))
        && (forall k :: k in ctx ==> ctx[k] == pre[k])
        && Locate(OverlayName(pre), GetOr(pre, "THEME", None), isFile, join) == Found(e.status.path)
        && load(e.status.path, ctx) == Loaded(e.status.bindings)
  {
    MergedForm(pre, isFile, join, load);
    var e := Initialized(pre, isFile, join, load);
    if e.status.Merged? {
      StripSpec(Normalise(ProtectSetting(pre)).keys, pre);
    }
  }

  /** The shape of a merge, which the lemmas below start from. */
  lemma MergedForm(pre: Settings, isFile: Value -> bool, join: (Value, Value) -> Value, load: (Value, Settings) -> LoadResult)
    ensures var e := Initialized(pre, isFile, join, load);
      e.status.Merged? ==>
        var p, b := Normalise(ProtectSetting(pre)), e.status.bindings;
        && p.Accepted?
        && e.status.context == Strip(p.keys, pre).0
        && e.settings == pre + Strip(p.keys, b).0
        && e.warnings == p.warnings + Warned(Strip(p.keys, b).1)
  {
  }

  /** After a merge: each protected key the theme binds to a value other than
      None keeps its old value or stays absent; each other key the theme
      binds is added or overwritten; every other setting is untouched. */
  lemma {:induction false} MergeProtects(pre: Settings, isFile: Value -> bool, join: (Value, Value) -> Value, load: (Value, Settings) -> LoadResult)
    ensures var e := Initialized(pre, isFile, join, load);
      e.status.Merged? ==>
        var ps, b, r := Normalise(ProtectSetting(pre)).keys, e.status.bindings, e.settings;
        && (forall k :: Str(k) in ps && k in b && b[k] != None ==> (k in r <==> k in pre) && (k in pre ==> r[k] == pre[k]))
        && (forall k :: k in b && !(Str(k) in ps && b[k] != None) ==> k in r && r[k] == b[k])
        && (forall k :: k !in b ==> (k in r <==> k in pre) && (k in pre ==> r[k] == pre[k]))
  {
    MergedForm(pre, isFile, join, load);
    var e := Initialized(pre, isFile, join, load);
    if e.status.Merged? {
      UpdateWithStripped(pre, Normalise(ProtectSetting(pre)).keys, e.status.bindings);
    }
  }

  /** A protected key the theme binds to None is not protected: it ends up None. */
  lemma {:induction false} NoneGetsThrough(
    pre: Settings, isFile: Value -> bool, join: (Value, Value) -> Value, load: (Value, Settings) -> LoadResult, k: string
  )
    ensures var e := Initialized(pre, isFile, join, load);
      (e.status.Merged? && Str(k) in Normalise(ProtectSetting(pre)).keys && k in e.status.bindings && e.status.bindings[k] == None)
        ==> k in e.settings && e.settings[k] == None
  {
    MergedForm(pre, isFile, join, load);
    var e := Initialized(pre, isFile, join, load);
    if e.status.Merged? && Str(k) in Normalise(ProtectSetting(pre)).keys && k in e.status.bindings && e.status.bindings[k] == None {
      NoneOverridesProtected(pre, Normalise(ProtectSetting(pre)).keys, e.status.bindings, k);
    }
  }

  /** After a merge the validation warning (if any) comes first; then there is
      one override warning for each protected key the theme binds to a value
      other than None, whether or not it differs from the user's, in
      protection-list order. */
  lemma {:induction false} MergeWarnings(pre: Settings, isFile: Value -> bool, join: (Value, Value) -> Value, load: (Value, Settings) -> LoadResult)
    ensures var e := Initialized(pre, isFile, join, load);
      e.status.Merged? ==>
        var ps, w0, b := Normalise(ProtectSetting(pre)).keys, Normalise(ProtectSetting(pre)).warnings, e.status.bindings;
        && |w0| <= |e.warnings| && e.warnings[..|w0|] == w0
        && WarnsInOrder(e.warnings[|w0|..], ps)
        && (forall k :: CannotOverride(k) in e.warnings <==> Str(k) in ps && k in b && b[k] != None)
  {
    MergedForm(pre, isFile, join, load);
    var e := Initialized(pre, isFile, join, load);
    if e.status.Merged? {
      var ps, w0, b := Normalise(ProtectSetting(pre)).keys, Normalise(ProtectSetting(pre)).warnings, e.status.bindings;
      var popped := Strip(ps, b).1;
      StripSpec(ps, b);
      WarnedSpec(popped, ps);
      assert e.warnings == w0 + Warned(popped);
      assert e.warnings[|w0|..] == Warned(popped);
    }
  }

  /** With a one-key protection list and the theme's file found as named:
      the key is hidden from the file when the user binds it to a value other
      than None, and dropped from the overlay and warned about when the file
      binds it to a value other than None. */
  lemma {:induction false} OneKeyMerge(
    pre: Settings, isFile: Value -> bool, join: (Value, Value) -> Value, load: (Value, Settings) -> LoadResult,
    k: string, b: Settings
  )
    requires ProtectSetting(pre) == List([Str(k)]) && isFile(OverlayName(pre))
    requires load(OverlayName(pre), if k in pre && pre[k] != None then pre - {k} else pre) == Loaded(b)
    ensures var hidden, popped := k in pre && pre[k] != None, k in b && b[k] != None;
      Initialized(pre, isFile, join, load) == Effect(
        pre + (if popped then b - {k} else b),
        Merged(OverlayName(pre), if hidden then pre - {k} else pre, b),
        if popped then [CannotOverride(k)] else [])
  {
    StripOne(k, pre);
    StripOne(k, b);
  }

  /** A site that sets PORT and protects only PORT. */
  const SITE: Settings := map["PORT" := Int(8000), "SITENAME" := Str("old"), "THEME_CONFIG_PROTECT" := List([Str("PORT")])]

  /** A theme file that changes PORT and SITENAME. */
  const CHANGING: Settings := map["PORT" := Int(9999), "SITENAME" := Str("new")]

  /** A theme file that declares PORT with the site's own value. */
  const REDECLARING: Settings := map["PORT" := Int(8000), "EXTRA" := Str("x")]

  /** Changing a protected key is ignored with a warning; the rest is merged.
      The theme's file is evaluated without PORT. */
  lemma {:induction false} PortChangeScenario(isFile: Value -> bool, join: (Value, Value) -> Value, load: (Value, Settings) -> LoadResult)
    requires isFile(Str("themeconf.py")) && load(Str("themeconf.py"), SITE - {"PORT"}) == Loaded(CHANGING)
    ensures var e := Initialized(SITE, isFile, join, load);
      && e.status.Merged? && e.status.context == SITE - {"PORT"}
      && e.settings == SITE["SITENAME" := Str("new")] && e.warnings == [CannotOverride("PORT")]
  {
    var k := "PORT";
    assert Normalise(ProtectSetting(SITE)) == Accepted([Str(k)], []);
    assert Locate(OverlayName(SITE), GetOr(SITE, "THEME", None), isFile, join) == Found(Str("themeconf.py"));
    StripOne(k, SITE);
    StripOne(k, CHANGING);
    assert SITE + (CHANGING - {k}) == SITE["SITENAME" := Str("new")];
  }

  /** Re-declaring a protected key, even with the value it already has, is
      still warned about. */
  lemma {:induction false} PortRedeclareScenario(isFile: Value -> bool, join: (Value, Value) -> Value, load: (Value, Settings) -> LoadResult)
    requires isFile(Str("themeconf.py")) && load(Str("themeconf.py"), SITE - {"PORT"}) == Loaded(REDECLARING)
    ensures var e := Initialized(SITE, isFile, join, load);
      && e.status.Merged? && e.status.context == SITE - {"PORT"}
      && e.settings == SITE["EXTRA" := Str("x")] && e.warnings == [CannotOverride("PORT")]
  {
    var k := "PORT";
    assert Normalise(ProtectSetting(SITE)) == Accepted([Str(k)], []);
    assert Locate(OverlayName(SITE), GetOr(SITE, "THEME", None), isFile, join) == Found(Str("themeconf.py"));
    StripOne(k, SITE);
    StripOne(k, REDECLARING);
    assert SITE + (REDECLARING - {k}) == SITE["EXTRA" := Str("x")];
  }
}
