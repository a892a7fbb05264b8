/**
 * The parts of `initialize` that both versions of the plug-in share: the
 * built-in protection list, reading and validating THEME_CONFIG_PROTECT,
 * locating the theme's configuration file, and the loop that removes every
 * protected key a dictionary binds to a value other than None.
 */
module ThemeConfig {
  import opened PySettings

  /** The keys a theme may not override unless THEME_CONFIG_PROTECT says otherwise. */
  const PROTECTED_OPTIONS: Value := List([
    Str("BIND"),
    Str("CACHE_PATH"),
    Str("PATH"),
    Str("PELICAN_CLASS"),
    Str("OUTPUT_PATH"),
    Str("SITEURL"),
    Str("THEME"),
    Str("THEME_CONFIG"),
    Str("THEME_CONFIG_PROTECT"),
    Str("PORT")
  ])

  /** The file name used when THEME_CONFIG is not set. */
  const DEFAULT_THEME_CONFIG: string := "themeconf.py"

  /** `settings.get("THEME_CONFIG", "themeconf.py")` */
  function OverlayName(settings: Settings): Value
  {
    GetOr(settings, "THEME_CONFIG", Str(DEFAULT_THEME_CONFIG))
  }

  /** `settings.get("THEME_CONFIG_PROTECT", PROTECTED_OPTIONS)` */
  function ProtectSetting(settings: Settings): Value
  {
    GetOr(settings, "THEME_CONFIG_PROTECT", PROTECTED_OPTIONS)
  }

  /** The protection list after validation, with the warnings validation logged. */
  datatype Protection = Accepted(keys: seq<Value>, warnings: seq<Warning>) | Rejected

  /** Validation of THEME_CONFIG_PROTECT: a list is taken as it is, a string
      becomes a one-element list and is warned about, anything else raises. */
  function Normalise(raw: Value): (r: Protection)
    ensures r.Rejected? <==> !raw.List? && !raw.Str?
    ensures raw.List? ==> r == Accepted(raw.items, [])
    ensures raw.Str? ==> r == Accepted([raw], [ProtectIsString])
  {
    match raw
    case List(items) => Accepted(items, [])
    case Str(_) => Accepted([raw], [ProtectIsString])
    case _ => Rejected
  }

  /** Without THEME_CONFIG_PROTECT the ten built-in keys are protected, silently;
      without THEME_CONFIG the file looked for is "themeconf.py". */
  lemma Defaults(settings: Settings)
    ensures "THEME_CONFIG_PROTECT" !in settings ==> Normalise(ProtectSetting(settings)) == Accepted(PROTECTED_OPTIONS.items, [])
    ensures "THEME_CONFIG_PROTECT" !in settings ==>
      var p := Normalise(ProtectSetting(settings));
      && p.Accepted? && p.warnings == [] && |p.keys| == 10
      && (forall i :: 0 <= i < 10 ==> p.keys[i].Str?)
      && Str("PORT") in p.keys && Str("THEME") in p.keys && Str("THEME_CONFIG_PROTECT") in p.keys
    ensures "THEME_CONFIG" !in settings ==> OverlayName(settings) == Str("themeconf.py")
  {
    if "THEME_CONFIG_PROTECT" !in settings {
      var keys := Normalise(ProtectSetting(settings)).keys;
      assert keys[9] == Str("PORT") && keys[6] == Str("THEME") && keys[8] == Str("THEME_CONFIG_PROTECT");
    }
  }

  /** A string protects exactly what the one-element list holding it protects;
      the string only adds a warning. */
  lemma StringIsSingletonList(s: string)
    ensures Normalise(Str(s)).keys == Normalise(List([Str(s)])).keys
    ensures Normalise(Str(s)).warnings == [ProtectIsString] + Normalise(List([Str(s)])).warnings
  {
  }

  /** Where the theme's configuration file was found, if anywhere. */
  datatype Location = Found(path: Value) | NotFound

  /** The path as given if it is a file, else the path joined to THEME if that
      is a file, else nothing. */
  function Locate(given: Value, theme: Value, isFile: Value -> bool, join: (Value, Value) -> Value): (r: Location)
    ensures r.NotFound? <==> !isFile(given) && !isFile(join(theme, given))
    ensures r.Found? ==> isFile(r.path) && (r.path == given || r.path == join(theme, given))
    ensures isFile(given) ==> r == Found(given)
  {
    var path := if isFile(given) then given else join(theme, given);
    if isFile(path) then Found(path) else NotFound
  }

  /** The keys that `ps` protects and `m` binds to a value other than None. */
  function BoundProtected(ps: seq<Value>, m: Settings): set<string>
  {
    set k | k in m && Str(k) in ps && m[k] != None
  }

  /** The loop `for p in ps: if m.get(p) is not None: m.pop(p)`, run on a copy
      of `m`: the dictionary left and the keys popped, in the order popped. */
  function Strip(ps: seq<Value>, m: Settings): (r: (Settings, seq<string>))
    ensures r.0.Keys <= m.Keys
    ensures |r.1| <= |ps|
    decreases |ps|
  {
    if ps == [] then (m, [])
    else
      var (cur, popped) := Strip(ps[..|ps| - 1], m);
      var p := ps[|ps| - 1];
      if Get(cur, p) != None then (cur - {p.s}, popped + [p.s]) else (cur, popped)
  }

  /** The position of the first occurrence of `x` in `ps`. */
  function FirstIndex(ps: seq<Value>, x: Value): (i: nat)
    requires x in ps
    ensures i < |ps| && ps[i] == x && x !in ps[..i]
  {
    if ps[0] == x then 0
    else
      var j := FirstIndex(ps[1..], x);
      assert ps[..j + 1] == [ps[0]] + ps[1..][..j];
      j + 1
  }

  /** Every key of `keys` is protected by `ps`, and the keys follow the order in
      which `ps` first names them (so no key occurs twice). */
  predicate InProtectionOrder(keys: seq<string>, ps: seq<Value>)
  {
    && (forall i :: 0 <= i < |keys| ==> Str(keys[i]) in ps)
    && (forall i, j :: 0 <= i < j < |keys| ==> FirstIndex(ps, Str(keys[i])) < FirstIndex(ps, Str(keys[j])))
  }

  lemma OrderedKeysAreDistinct(keys: seq<string>, ps: seq<Value>)
    requires InProtectionOrder(keys, ps)
    ensures forall i, j :: 0 <= i < j < |keys| ==> keys[i] != keys[j]
  {
  }

  /** Appending a key that `ps` first names after every key already there keeps the order. */
  lemma OrderedAppend(keys: seq<string>, k: string, ps: seq<Value>)
    requires InProtectionOrder(keys, ps) && Str(k) in ps
    requires forall i :: 0 <= i < |keys| ==> FirstIndex(ps, Str(keys[i])) < FirstIndex(ps, Str(k))
    ensures InProtectionOrder(keys + [k], ps)
  {
    var ks := keys + [k];
    assert forall i :: 0 <= i < |keys| ==> ks[i] == keys[i];
  }

  /** A first occurrence inside a prefix is the first occurrence in the whole. */
  lemma FirstIndexInPrefix(ps: seq<Value>, n: nat, x: Value)
    requires n <= |ps| && x in ps[..n]
    ensures FirstIndex(ps, x) == FirstIndex(ps[..n], x)
  {
  }

  /** One more protection-list entry protects its key in addition. */
  lemma BoundProtectedAppend(front: seq<Value>, p: Value, m: Settings)
    ensures BoundProtected(front + [p], m) ==
      BoundProtected(front, m) + (if p.Str? && p.s in m && m[p.s] != None then {p.s} else {})
  {
  }

  /** The loop leaves exactly the keys that are not bound protected keys. */
  lemma {:induction false} StripRemoves(ps: seq<Value>, m: Settings)
    ensures Strip(ps, m).0 == m - BoundProtected(ps, m)
  {
    if ps != [] {
      var n := |ps| - 1;
      assert ps == ps[..n] + [ps[n]];
      StripRemoves(ps[..n], m);
      BoundProtectedAppend(ps[..n], ps[n], m);
    }
  }

  /** The loop pops exactly the bound protected keys. */
  lemma {:induction false} StripPops(ps: seq<Value>, m: Settings)
    ensures forall k :: k in Strip(ps, m).1 <==> k in BoundProtected(ps, m)
  {
    if ps != [] {
      var n := |ps| - 1;
      assert ps == ps[..n] + [ps[n]];
      StripPops(ps[..n], m);
      StripRemoves(ps[..n], m);
      BoundProtectedAppend(ps[..n], ps[n], m);
    }
  }

  /** The loop pops the keys in protection-list order. */
  lemma {:induction false} StripOrdered(ps: seq<Value>, m: Settings)
    ensures InProtectionOrder(Strip(ps, m).1, ps)
  {
    if ps != [] {
      var n := |ps| - 1;
      var front, p := ps[..n], ps[n];
      assert ps == front + [p];
      StripOrdered(front, m);
      StripPops(front, m);
      StripRemoves(front, m);
      var popped := Strip(front, m).1;
      forall i | 0 <= i < |popped|
        ensures Str(popped[i]) in front && FirstIndex(ps, Str(popped[i])) == FirstIndex(front, Str(popped[i]))
      {
        FirstIndexInPrefix(ps, n, Str(popped[i]));
      }
      if Get(Strip(front, m).0, p) != None {
        assert p !in front;
        assert FirstIndex(ps, p) == n;
        OrderedAppend(popped, p.s, ps);
      }
    }
  }

  /** The loop removes exactly the bound protected keys and nothing else, and
      pops them in protection-list order. */
  lemma StripSpec(ps: seq<Value>, m: Settings)
    ensures Strip(ps, m).0 == m - BoundProtected(ps, m)
    ensures forall k :: k in Strip(ps, m).1 <==> k in BoundProtected(ps, m)
    ensures InProtectionOrder(Strip(ps, m).1, ps)
    ensures forall i, j :: 0 <= i < j < |Strip(ps, m).1| ==> Strip(ps, m).1[i] != Strip(ps, m).1[j]
  {
    StripRemoves(ps, m);
    StripPops(ps, m);
    StripOrdered(ps, m);
    OrderedKeysAreDistinct(Strip(ps, m).1, ps);
  }

  /** The loop over a one-key protection list. */
  lemma StripOne(k: string, m: Settings)
    ensures Strip([Str(k)], m).0 == if k in m && m[k] != None then m - {k} else m
    ensures Strip([Str(k)], m).1 == if k in m && m[k] != None then [k] else []
  {
    assert [Str(k)][..0] == [];
  }

  /** One warning per key, in the same order. */
  function Warned(keys: seq<string>): (ws: seq<Warning>)
    ensures |ws| == |keys|
    ensures forall i :: 0 <= i < |keys| ==> ws[i] == CannotOverride(keys[i])
  {
    seq(|keys|, i requires 0 <= i < |keys| => CannotOverride(keys[i]))
  }

  lemma WarnedAppend(keys: seq<string>, k: string)
    ensures Warned(keys + [k]) == Warned(keys) + [CannotOverride(k)]
  {
    assert Warned(keys + [k])[|keys|] == CannotOverride(k);
  }

  /** `ws` warns about a key exactly when `keys` holds it, in the same order. */
  lemma WarnedSpec(keys: seq<string>, ps: seq<Value>)
    ensures forall k :: CannotOverride(k) in Warned(keys) <==> k in keys
    ensures ProtectIsString !in Warned(keys)
    ensures InProtectionOrder(keys, ps) ==> WarnsInOrder(Warned(keys), ps)
  {
    var ws := Warned(keys);
    forall k | k in keys ensures CannotOverride(k) in ws {
      var i :| 0 <= i < |keys| && keys[i] == k;
      assert ws[i] == CannotOverride(k);
    }
  }

  /** Only override warnings, for keys `ps` protects, in protection-list order. */
  predicate WarnsInOrder(ws: seq<Warning>, ps: seq<Value>)
  {
    && (forall i :: 0 <= i < |ws| ==> ws[i].CannotOverride? && Str(ws[i].key) in ps)
    && (forall i, j :: 0 <= i < j < |ws| ==> FirstIndex(ps, Str(ws[i].key)) < FirstIndex(ps, Str(ws[j].key)))
  }

  /** `settings.update(stripped)`, where `stripped` is `overlay` after the
      protected keys are popped: each protected key the overlay binds to a
      value other than None keeps its old value or stays absent; every other
      overlay key is added or overwritten; every other key is untouched. */
  lemma {:induction false} UpdateWithStripped(pre: Settings, ps: seq<Value>, overlay: Settings)
    ensures var r := pre + Strip(ps, overlay).0;
      && (forall k :: k in BoundProtected(ps, overlay) ==> (k in r <==> k in pre) && (k in pre ==> r[k] == pre[k]))
      && (forall k :: k in overlay && k !in BoundProtected(ps, overlay) ==> k in r && r[k] == overlay[k])
      && (forall k :: k !in overlay ==> (k in r <==> k in pre) && (k in pre ==> r[k] == pre[k]))
  {
    StripSpec(ps, overlay);
  }

  /** The guard tests `is not None`, so a protected key the overlay binds to
      None is not popped, and the update sets it to None. */
  lemma {:induction false} NoneOverridesProtected(pre: Settings, ps: seq<Value>, overlay: Settings, k: string)
    requires Str(k) in ps && k in overlay && overlay[k] == None
    ensures var r := pre + Strip(ps, overlay).0; k in r && r[k] == None
  {
    UpdateWithStripped(pre, ps, overlay);
  }
}
