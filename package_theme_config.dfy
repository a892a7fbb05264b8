/**
 * `initialize` of the packaged plug-in (pelican.plugins.theme_config): the
 * theme's file is evaluated with every setting visible, protected ones
 * included; afterwards every protected key it binds to a value other than None
 * is dropped, with a warning only when the value differs from the one the
 * user had.
 */
module PackageThemeConfig {
  import opened PySettings
  import opened ThemeConfig

  /** `preserved`: each protected key the settings bind to a value other than
      None, with that value. */
  function Preserved(ps: seq<Value>, settings: Settings): (r: map<string, Value>)
    ensures forall k :: k in r <==> k in settings && Str(k) in ps && settings[k] != None
    ensures forall k :: k in r ==> r[k] == settings[k]
  {
    map k | k in BoundProtected(ps, settings) :: settings[k]
  }

  /** The popped keys, in order, whose overlay value differs from the preserved one. */
  function Conflicts(popped: seq<string>, overlay: Settings, preserved: map<string, Value>): (r: seq<string>)
    ensures |r| <= |popped|
    decreases |popped|
  {
    if popped == [] then []
    else
      var k := popped[|popped| - 1];
      Conflicts(popped[..|popped| - 1], overlay, preserved)
        + (if k in overlay && k in preserved && overlay[k] != preserved[k] then [k] else [])
  }

  /** A popped key is a conflict exactly when the overlay changes its preserved value. */
  lemma {:induction false} ConflictsMembers(popped: seq<string>, overlay: Settings, preserved: map<string, Value>)
    ensures forall k :: k in Conflicts(popped, overlay, preserved) <==>
      k in popped && k in overlay && k in preserved && overlay[k] != preserved[k]
  {
    if popped != [] {
      var n := |popped| - 1;
      assert popped == popped[..n] + [popped[n]];
      ConflictsMembers(popped[..n], overlay, preserved);
    }
  }

  /** Conflicts keep the order of the popped keys. */
  lemma {:induction false} ConflictsOrdered(popped: seq<string>, overlay: Settings, preserved: map<string, Value>, ps: seq<Value>)
    requires InProtectionOrder(popped, ps)
    ensures InProtectionOrder(Conflicts(popped, overlay, preserved), ps)
  {
    if popped != [] {
      var n := |popped| - 1;
      var front, k := popped[..n], popped[n];
      assert InProtectionOrder(front, ps);
      ConflictsOrdered(front, overlay, preserved, ps);
      var c := Conflicts(front, overlay, preserved);
      if k in overlay && k in preserved && overlay[k] != preserved[k] {
        forall i | 0 <= i < |c| ensures FirstIndex(ps, Str(c[i])) < FirstIndex(ps, Str(k)) {
          ConflictsMembers(front, overlay, preserved);
          assert c[i] in c;
          var a :| 0 <= a < |front| && front[a] == c[i];
          assert popped[a] == c[i];
        }
        OrderedAppend(c, k, ps);
      }
    }
  }

  /** A bound protected key is preserved with its value. */
  lemma PreservedHas(ps: seq<Value>, settings: Settings, k: string)
    requires Str(k) in ps && k in settings && settings[k] != None
    ensures k in Preserved(ps, settings) && Preserved(ps, settings)[k] == settings[k]
  {
    assert k in BoundProtected(ps, settings);
  }

  /** The conflicts among the keys popped for a one-key protection list. */
  lemma ConflictsOne(k: string, overlay: Settings, preserved: map<string, Value>)
    ensures Conflicts([k], overlay, preserved) ==
      if k in overlay && k in preserved && overlay[k] != preserved[k] then [k] else []
  {
    assert [k][..0] == [];
  }

  /** What `initialize` does to settings `pre`. The file system is `isFile`
      and `join`; evaluating the theme's file is `load`. */
  function Initialized(
    pre: Settings, isFile: Value -> bool, join: (Value, Value) -> Value, load: (Value, Settings) -> LoadResult
  ): (e: Effect)
    ensures !e.status.Merged? ==> e.settings == pre
    ensures e.status.Merged? ==> e.status.context == pre
  {
    match Normalise(ProtectSetting(pre))
    case Rejected => Effect(pre, Raised(BadProtectList), [])
    case Accepted(protected, w0) =>
      match Locate(OverlayName(pre), GetOr(pre, "THEME", None), isFile, join)
      case NotFound => Effect(pre, NoOverlay, w0)
      case Found(path) =>
        match load(path, pre)
        case LoadFailed => Effect(pre, Raised(LoadError), w0)
        case Loaded(bindings) =>
          var stripped := Strip(protected, bindings);
          var conflicts := Conflicts(stripped.1, bindings, Preserved(protected, pre));
          Effect(pre + stripped.0, Merged(path, pre, bindings), w0 + Warned(conflicts))
  }

  /** The loop that fills `preserved`. */
  method CollectPreserved(protected: seq<Value>, settings: Settings) returns (preserved: map<string, Value>)
    ensures forall k :: k in preserved <==> k in settings && Str(k) in protected && settings[k] != None
    ensures forall k :: k in preserved ==> preserved[k] == settings[k]
    ensures preserved == Preserved(protected, settings)
  {
    preserved := map[];
    for i := 0 to |protected|
      invariant forall k :: k in preserved <==> k in settings && Str(k) in protected[..i] && settings[k] != None
      invariant forall k :: k in preserved ==> preserved[k] == settings[k]
    {
      assert protected[..i + 1] == protected[..i] + [protected[i]];
      var p := protected[i];
      if Get(settings, p) != None {
        preserved := preserved[p.s := Get(settings, p)];
      }
    }
    assert protected[..|protected|] == protected;
  }

  /** The loop that pops the protected keys from the overlay, warning where
      the overlay changes a preserved value. */
  method StripOverlay(protected: seq<Value>, overlay: Settings, preserved: map<string, Value>)
    returns (kept: Settings, warnings: seq<Warning>)
    ensures kept == Strip(protected, overlay).0
    ensures warnings == Warned(Conflicts(Strip(protected, overlay).1, overlay, preserved))
  {
    kept, warnings := overlay, [];
    ghost var popped: seq<string> := [];
    for i := 0 to |protected|
      invariant kept == Strip(protected[..i], overlay).0 && popped == Strip(protected[..i], overlay).1
      invariant warnings == Warned(Conflicts(popped, overlay, preserved))
      invariant forall k :: k in kept ==> k in overlay && kept[k] == overlay[k]
    {
      assert protected[..i + 1][..i] == protected[..i];
      var p := protected[i];
      if Get(kept, p) != None {
        if p.s in preserved && kept[p.s] != preserved[p.s] {
          WarnedAppend(Conflicts(popped, overlay, preserved), p.s);
          warnings := warnings + [CannotOverride(p.s)];
        }
        assert (popped + [p.s])[..|popped|] == popped;
        kept, popped := kept - {p.s}, popped + [p.s];
      }
    }
    assert protected[..|protected|] == protected;
  }

  /** `initialize(pelican)`, up to the plug-in re-initialisation that follows the update. */
  method Initialize(
    pelican: Pelican, isFile: Value -> bool, join: (Value, Value) -> Value, load: (Value, Settings) -> LoadResult
  ) returns (status: Status, warnings: seq<Warning>)
    modifies pelican
    ensures var e := Initialized(old(pelican.settings), isFile, join, load);
      pelican.settings == e.settings && status == e.status && warnings == e.warnings
  {
    ghost var pre := pelican.settings;
    var themeConfig := GetOr(pelican.settings, "THEME_CONFIG", Str(DEFAULT_THEME_CONFIG));
    var protectedSetting := GetOr(pelican.settings, "THEME_CONFIG_PROTECT", PROTECTED_OPTIONS);
    var protected: seq<Value>;
    warnings := [];

    if !protectedSetting.List? {
      if protectedSetting.Str? {
        warnings := warnings + [ProtectIsString];
        protected := [protectedSetting];
      } else {
        return Raised(BadProtectList), warnings;
      }
    } else {
      protected := protectedSetting.items;
    }
    assert Normalise(ProtectSetting(pre)) == Accepted(protected, warnings);

    if !isFile(themeConfig) {
      themeConfig := join(GetOr(pelican.settings, "THEME", None), themeConfig);
    }
    if !isFile(themeConfig) {
      return NoOverlay, warnings;
    }
    assert Locate(OverlayName(pre), GetOr(pre, "THEME", None), isFile, join) == Found(themeConfig);

    var settings := pelican.settings;
    var preserved := CollectPreserved(protected, settings);
    var loaded := load(themeConfig, settings);
    if loaded.LoadFailed? {
      return Raised(LoadError), warnings;
    }
    var kept, overrides := StripOverlay(protected, loaded.bindings, preserved);
    warnings := warnings + overrides;
    pelican.settings := pelican.settings + kept;
    status := Merged(themeConfig, settings, loaded.bindings);
  }

  /** Each exception leaves the settings as they were; the bad protection list
      is detected before anything else happens, and only when the setting is
      neither a list nor a string (an explicit None included). */
  lemma ErrorsChangeNothing(pre: Settings, isFile: Value -> bool, join: (Value, Value) -> Value, load: (Value, Settings) -> LoadResult)
    ensures var e := Initialized(pre, isFile, join, load);
      && (e.status.Raised? ==> e.settings == pre)
      && (e.status == Raised(BadProtectList) <==> !ProtectSetting(pre).List? && !ProtectSetting(pre).Str?)
      && (e.status == Raised(BadProtectList) ==> e.warnings == [])
  {
  }

  /** With no file at the given path nor under THEME, nothing changes, the
      loader does not matter, and no override warning is logged. */
  lemma NoFileNoChange(
    pre: Settings, isFile: Value -> bool, join: (Value, Value) -> Value,
    load: (Value, Settings) -> LoadResult, otherLoad: (Value, Settings) -> LoadResult
  )
    requires Normalise(ProtectSetting(pre)).Accepted?
    requires !isFile(OverlayName(pre)) && !isFile(join(GetOr(pre, "THEME", None), OverlayName(pre)))
    ensures var e := Initialized(pre, isFile, join, load);
      && e.settings == pre && e.status == NoOverlay
      && e.warnings == Normalise(ProtectSetting(pre)).warnings
      && (forall k :: CannotOverride(k) !in e.warnings)
      && e == Initialized(pre, isFile, join, otherLoad)
  {
  }

  /** The theme's file is evaluated at the located path, with all the
      settings, protected ones included, as its context. */
  lemma ContextIsAllSettings(pre: Settings, isFile: Value -> bool, join: (Value, Value) -> Value, load: (Value, Settings) -> LoadResult)
    ensures var e := Initialized(pre, isFile, join, load);
      e.status.Merged? ==>
        && e.status.context == pre
        && Locate(OverlayName(pre), GetOr(pre, "THEME", None), isFile, join) == Found(e.status.path)
        && load(e.status.path, e.status.context) == Loaded(e.status.bindings)
  {
  }

  /** The shape of a merge, which the lemmas below start from. */
  lemma MergedForm(pre: Settings, isFile: Value -> bool, join: (Value, Value) -> Value, load: (Value, Settings) -> LoadResult)
    ensures var e := Initialized(pre, isFile, join, load);
      e.status.Merged? ==>
        var p, b := Normalise(ProtectSetting(pre)), e.status.bindings;
        && p.Accepted?
        && e.settings == pre + Strip(p.keys, b).0
        && e.warnings == p.warnings + Warned(Conflicts(Strip(p.keys, b).1, b, Preserved(p.keys, pre)))
  {
  }

  /** After a merge: each protected key the theme binds to a value other than
      None keeps its old value or stays absent; each other key the theme
      binds is added or overwritten; every other setting is untouched. */
  lemma {:induction false} MergeProtects(pre: Settings, isFile: Value -> bool, join: (Value, Value) -> Value, load: (Value, Settings) -> LoadResult)
    ensures var e := Initialized(pre, isFile, join, load);
      e.status.Merged? ==>
        var ps, b, r := Normalise(ProtectSetting(pre)).keys, e.status.bindings, e.settings;
        && (forall k :: Str(k) in ps && k in b && b[k] != None ==> (k in r <==> k in pre) && (k in pre ==> r[k] == pre[k]))
        && (forall k :: k in b && !(Str(k) in ps && b[k] != None) ==> k in r && r[k] == b[k])
        && (forall k :: k !in b ==> (k in r <==> k in pre) && (k in pre ==> r[k] == pre[k]))
  {
    MergedForm(pre, isFile, join, load);
    var e := Initialized(pre, isFile, join, load);
    if e.status.Merged? {
      UpdateWithStripped(pre, Normalise(ProtectSetting(pre)).keys, e.status.bindings);
    }
  }

  /** A protected key the theme binds to None is not protected: it ends up None. */
  lemma {:induction false} NoneGetsThrough(
    pre: Settings, isFile: Value -> bool, join: (Value, Value) -> Value, load: (Value, Settings) -> LoadResult, k: string
  )
    ensures var e := Initialized(pre, isFile, join, load);
      (e.status.Merged? && Str(k) in Normalise(ProtectSetting(pre)).keys && k in e.status.bindings && e.status.bindings[k] == None)
        ==> k in e.settings && e.settings[k] == None
  {
    MergedForm(pre, isFile, join, load);
    var e := Initialized(pre, isFile, join, load);
    if e.status.Merged? && Str(k) in Normalise(ProtectSetting(pre)).keys && k in e.status.bindings && e.status.bindings[k] == None {
      NoneOverridesProtected(pre, Normalise(ProtectSetting(pre)).keys, e.status.bindings, k);
    }
  }

  /** After a merge the validation warning (if any) comes first; then there is
      one override warning for each protected key the theme binds to a value
      other than None that differs from a value other than None the user had,
      in protection-list order. Re-declaring the user's value is silent. */
  lemma {:induction false} MergeWarnings(pre: Settings, isFile: Value -> bool, join: (Value, Value) -> Value, load: (Value, Settings) -> LoadResult)
    ensures var e := Initialized(pre, isFile, join, load);
      e.status.Merged? ==>
        var ps, w0, b := Normalise(ProtectSetting(pre)).keys, Normalise(ProtectSetting(pre)).warnings, e.status.bindings;
        && |w0| <= |e.warnings| && e.warnings[..|w0|] == w0
        && WarnsInOrder(e.warnings[|w0|..], ps)
        && (forall k :: CannotOverride(k) in e.warnings <==>
              Str(k) in ps && k in b && b[k] != None && k in pre && pre[k] != None && b[k] != pre[k])
  {
    MergedForm(pre, isFile, join, load);
    var e := Initialized(pre, isFile, join, load);
    if e.status.Merged? {
      var ps, w0, b := Normalise(ProtectSetting(pre)).keys, Normalise(ProtectSetting(pre)).warnings, e.status.bindings;
      var popped := Strip(ps, b).1;
      var preserved := Preserved(ps, pre);
      var conflicts := Conflicts(popped, b, preserved);
      StripSpec(ps, b);
      ConflictsMembers(popped, b, preserved);
      ConflictsOrdered(popped, b, preserved, ps);
      WarnedSpec(conflicts, ps);
      assert e.warnings == w0 + Warned(conflicts);
      assert e.warnings[|w0|..] == Warned(conflicts);
    }
  }

  /** With a one-key protection list and the theme's file found as named:
      the key is dropped from the overlay when it binds it to a value other
      than None, and warned about when it also changes the user's value. */
  lemma {:induction false} OneKeyMerge(
    pre: Settings, isFile: Value -> bool, join: (Value, Value) -> Value, load: (Value, Settings) -> LoadResult,
    k: string, b: Settings
  )
    requires ProtectSetting(pre) == List([Str(k)])
    requires isFile(OverlayName(pre)) && load(OverlayName(pre), pre) == Loaded(b)
    ensures var popped := k in b && b[k] != None;
      Initialized(pre, isFile, join, load) == Effect(
        pre + (if popped then b - {k} else b),
        Merged(OverlayName(pre), pre, b),
        if popped && k in pre && pre[k] != None && b[k] != pre[k] then [CannotOverride(k)] else [])
  {
    StripOne(k, b);
    var preserved := Preserved([Str(k)], pre);
    if k in pre && pre[k] != None {
      PreservedHas([Str(k)], pre, k);
    } else {
      assert k !in BoundProtected([Str(k)], pre);
    }
    ConflictsOne(k, b, preserved);
  }
}
