/**
 * The process-wide registry (cxx/core/UnistylesRegistry.cpp): per runtime, the theme state,
 * the table linking shadow-node families to the unistyles applied to them, and the style
 * sheets; plus the staging area of pending prop updates. Lookups through the C++ `operator[]`
 * create empty entries, and the methods below model those insertions.
 */
module Registry {
  import opened Wrappers
  import opened Js
  import opened Styles
  import opened Helpers
  import opened State
  import opened Traffic

  /** Per runtime: family -> the unistyles linked to it, in link order. */
  type LinkTable = map<Family, seq<UnistyleData>>

  const StateMissingMessage: string :=
    "Unistyles was loaded, but it's not configured. Did you forget to call StyleSheet.configure? If you don't want to use any themes or breakpoints, simply call it with an empty object {}."

  const ThemeNotObjectMessage: string :=
    "Unistyles: Returned theme is not an object. Please check your updateTheme function."

  function UpdateUnknownThemeMessage(themeName: string): string
  {
    "Unistyles: You're trying to update theme '" + themeName + "' but it wasn't registered."
  }

  /** The links of `family`, empty when it has none. */
  function LinksOf(table: LinkTable, family: Family): seq<UnistyleData>
  {
    if family in table then table[family] else []
  }

  /** `table` with one more link appended for `family`. */
  function AddLink(table: LinkTable, family: Family, link: UnistyleData): LinkTable
  {
    table[family := LinksOf(table, family) + [link]]
  }

  /** Some link in `links` carries unistyle `u`. */
  predicate IsLinked(u: Unistyle, links: seq<UnistyleData>)
  {
    exists i :: 0 <= i < |links| && links[i].unistyle == u
  }

  /** The candidates not linked yet, in their original order. */
  function NotLinked(candidates: seq<Unistyle>, links: seq<UnistyleData>): (r: seq<Unistyle>)
    ensures |r| <= |candidates|
  {
    if |candidates| == 0 then []
    else
      var last := candidates[|candidates| - 1];
      NotLinked(candidates[..|candidates| - 1], links) + (if IsLinked(last, links) then [] else [last])
  }

  /** Some link in `links` carries a unistyle depending on one of `deps`. */
  predicate AnyLinkDepends(links: seq<UnistyleData>, deps: seq<Dependency>)
  {
    exists i :: 0 <= i < |links| && HasAnyOf(links[i].unistyle, deps)
  }

  /** Appends every link of `unistyles`, one at a time, to the entry of a family that has none. */
  method CopyLinks(table: LinkTable, family: Family, unistyles: seq<UnistyleData>) returns (r: LinkTable)
    requires family !in table
    ensures r == if |unistyles| == 0 then table else table[family := unistyles]
  {
    r := table;
    var m := 0;
    while m < |unistyles|
      invariant 0 <= m <= |unistyles|
      invariant r == (if m == 0 then table else table[family := unistyles[..m]])
    {
      r := AddLink(r, family, unistyles[m]);
      assert unistyles[..m + 1] == unistyles[..m] + [unistyles[m]];
      m := m + 1;
    }
    assert unistyles[..m] == unistyles;
  }

  /** The last link carrying unistyle `u`, if any. */
  function LastMatch(links: seq<UnistyleData>, u: Unistyle): (r: Option<UnistyleData>)
    ensures r.Some? <==> IsLinked(u, links)
    ensures r.Some? ==> exists i :: 0 <= i < |links| && links[i] == r.value && links[i].unistyle == u
                                    && forall j :: i < j < |links| ==> links[j].unistyle != u
  {
    if |links| == 0 then None
    else if links[|links| - 1].unistyle == u then Some(links[|links| - 1])
    else
      var r := LastMatch(links[..|links| - 1], u);
      assert forall j :: 0 <= j < |links| - 1 ==> links[..|links| - 1][j] == links[j];
      r
  }

  /** A second write to a key hides the first. */
  lemma OverwriteTwice<K, V>(m: map<K, V>, k: K, first: V, second: V)
    ensures m[k := first][k := second] == m[k := second]
  {
  }

  /** Extending the links by one entry: the new entry is the last match if it carries `u`. */
  lemma LastMatchStep(links: seq<UnistyleData>, j: nat, u: Unistyle)
    requires j < |links|
    ensures LastMatch(links[..j + 1], u) == if links[j].unistyle == u then Some(links[j]) else LastMatch(links[..j], u)
  {
    assert links[..j + 1][..j] == links[..j];
  }

  /**
   * The batch a change of unistyle `u` produces: every family linked to `u` gets the props
   * parsed from its last link to `u`.
   */
  function LeafUpdates(table: LinkTable, u: Unistyle, parse: seq<UnistyleData> -> Dynamic): map<Family, Dynamic>
  {
    map f | f in table && LastMatch(table[f], u).Some? :: parse([LastMatch(table[f], u).value])
  }

  /** A batch that has exactly the keys and values of `LeafUpdates` is `LeafUpdates`. */
  lemma LeafUpdatesCharacterized(table: LinkTable, u: Unistyle, parse: seq<UnistyleData> -> Dynamic, batch: map<Family, Dynamic>)
    requires forall f :: f in batch <==> f in table && LastMatch(table[f], u).Some?
    requires forall f :: f in batch ==> batch[f] == parse([LastMatch(table[f], u).value])
    ensures batch == LeafUpdates(table, u, parse)
  {
  }

  /**
   * A style sheet must be recomputed for a set of changed dependencies when it has the mini
   * runtime and one of its unistyles depends on a changed one, or when it is themable and
   * the theme changed. Static sheets never are.
   */
  predicate NeedsRefresh(sheet: StyleSheet, deps: seq<Dependency>)
  {
    || (sheet.kind == ThemableWithMiniRuntime && SheetDepends(sheet, deps))
    || (sheet.kind == Themable && Theme in deps)
  }

  /** One of the style sheet's unistyles depends on one of `deps`. */
  predicate SheetDepends(sheet: StyleSheet, deps: seq<Dependency>)
  {
    exists n :: n in sheet.unistyles && HasAnyOf(sheet.unistyles[n], deps)
  }

  /** Every style sheet is stored under its own tag. */
  ghost predicate SheetsKeyed(registry: map<Runtime, map<int, StyleSheet>>)
  {
    forall rt, k :: rt in registry && k in registry[rt] ==> registry[rt][k].tag == k
  }

  /** The style sheet holds a unistyle with identifier `id`. */
  predicate SheetHasId(sheet: StyleSheet, id: string)
  {
    exists n :: n in sheet.unistyles && sheet.unistyles[n].unid == id
  }

  /** Some style sheet holds a unistyle with identifier `id`. */
  predicate HasUnistyleWithId(sheets: map<int, StyleSheet>, id: string)
  {
    exists k :: k in sheets && SheetHasId(sheets[k], id)
  }

  /** `u` is one of the unistyles of the style sheets. */
  predicate IsUnistyleOf(sheets: map<int, StyleSheet>, u: Unistyle)
  {
    exists k, n :: k in sheets && n in sheets[k].unistyles && sheets[k].unistyles[n] == u
  }

  class UnistylesRegistry {
    var states: map<Runtime, UnistylesState>
    var shadowRegistry: map<Runtime, LinkTable>
    var styleSheetRegistry: map<Runtime, map<int, StyleSheet>>
    var scopedTheme: Option<string>
    const trafficController: TrafficController

    constructor()
      ensures Valid()
      ensures states == map[] && shadowRegistry == map[] && styleSheetRegistry == map[] && scopedTheme.None?
      ensures fresh(trafficController) && trafficController.updates == map[]
    {
      states := map[];
      shadowRegistry := map[];
      styleSheetRegistry := map[];
      scopedTheme := None;
      trafficController := new TrafficController();
    }

    /** The link table of a runtime, empty when it has none. */
    function Links(rt: Runtime): LinkTable
      reads this
    {
      if rt in shadowRegistry then shadowRegistry[rt] else map[]
    }

    /** The style sheets of a runtime, empty when it has none. */
    function Sheets(rt: Runtime): map<int, StyleSheet>
      reads this
    {
      if rt in styleSheetRegistry then styleSheetRegistry[rt] else map[]
    }

    /** The state object of a runtime, as a frame. */
    function StateFrame(rt: Runtime): set<UnistylesState>
      reads this
    {
      if rt in states then {states[rt]} else {}
    }

    /** Distinct runtimes hold distinct state objects, so writing one state leaves the others. */
    ghost predicate Valid()
      reads this
    {
      forall r1, r2 :: r1 in states && r2 in states && r1 != r2 ==> states[r1] != states[r2]
    }

    /** The state of a runtime; an error telling the app to configure the library when none exists. */
    function GetState(rt: Runtime): (r: Result<UnistylesState, JsError>)
      reads this
      ensures r.Ok? <==> rt in states
      ensures r.Ok? ==> r.value == states[rt]
      ensures r.Err? ==> r.error == JsError(StateMissingMessage)
    {
      if rt in states then Ok(states[rt]) else Err(JsError(StateMissingMessage))
    }

    /**
     * Registers a theme: the first object registered under a name is kept, while the name is
     * appended to the registration order every time.
     */
    method RegisterTheme(rt: Runtime, name: string, theme: JsValue) returns (r: Outcome<JsError>)
      modifies StateFrame(rt)`jsThemes, StateFrame(rt)`registeredThemeNames
      ensures Valid() ==> forall other :: other in states && other != rt ==> unchanged(states[other])
      ensures r.Fail? <==> rt !in states
      ensures rt in states ==>
        && states[rt].registeredThemeNames == old(states[rt].registeredThemeNames) + [name]
        && states[rt].jsThemes == (if name in old(states[rt].jsThemes) then old(states[rt].jsThemes)
                                   else old(states[rt].jsThemes)[name := theme])
        && states[rt].currentThemeName == old(states[rt].currentThemeName)
      ensures rt in states && old(states[rt].Valid()) ==> states[rt].Valid()
    {
      var state := GetState(rt);
      if state.Err? {
        return Fail(state.error);
      }
      var s := state.value;
      if name !in s.jsThemes {
        s.jsThemes := s.jsThemes[name := theme];
      }
      s.registeredThemeNames := s.registeredThemeNames + [name];
      r := Pass;
    }

    method RegisterBreakpoints(rt: Runtime, sortedBreakpoints: seq<Breakpoint>) returns (r: Outcome<JsError>)
      modifies StateFrame(rt)`sortedBreakpointPairs
      ensures Valid() ==> forall other :: other in states && other != rt ==> unchanged(states[other])
      ensures r.Fail? <==> rt !in states
      ensures rt in states ==> states[rt].sortedBreakpointPairs == sortedBreakpoints
      ensures rt in states ==>
        && states[rt].jsThemes == old(states[rt].jsThemes)
        && states[rt].registeredThemeNames == old(states[rt].registeredThemeNames)
        && states[rt].currentThemeName == old(states[rt].currentThemeName)
    {
      var state := GetState(rt);
      if state.Err? {
        return Fail(state.error);
      }
      state.value.sortedBreakpointPairs := sortedBreakpoints;
      r := Pass;
    }

    method SetPrefersAdaptiveThemes(rt: Runtime, prefersAdaptiveThemes: bool) returns (r: Outcome<JsError>)
      modifies StateFrame(rt)`prefersAdaptiveThemes
      ensures Valid() ==> forall other :: other in states && other != rt ==> unchanged(states[other])
      ensures r.Fail? <==> rt !in states
      ensures rt in states ==> states[rt].prefersAdaptiveThemes == Some(prefersAdaptiveThemes)
      ensures rt in states ==>
        && states[rt].jsThemes == old(states[rt].jsThemes)
        && states[rt].registeredThemeNames == old(states[rt].registeredThemeNames)
        && states[rt].currentThemeName == old(states[rt].currentThemeName)
    {
      var state := GetState(rt);
      if state.Err? {
        return Fail(state.error);
      }
      state.value.prefersAdaptiveThemes := Some(prefersAdaptiveThemes);
      r := Pass;
    }

    method SetInitialThemeName(rt: Runtime, themeName: string) returns (r: Outcome<JsError>)
      modifies StateFrame(rt)`initialThemeName
      ensures Valid() ==> forall other :: other in states && other != rt ==> unchanged(states[other])
      ensures r.Fail? <==> rt !in states
      ensures rt in states ==> states[rt].initialThemeName == Some(themeName)
      ensures rt in states ==>
        && states[rt].jsThemes == old(states[rt].jsThemes)
        && states[rt].registeredThemeNames == old(states[rt].registeredThemeNames)
        && states[rt].currentThemeName == old(states[rt].currentThemeName)
    {
      var state := GetState(rt);
      if state.Err? {
        return Fail(state.error);
      }
      state.value.initialThemeName := Some(themeName);
      r := Pass;
    }

    /** Gives the runtime a fresh, empty state, discarding any previous one (live reload). */
    method CreateState(rt: Runtime)
      modifies this`states
      ensures old(Valid()) ==> Valid()
      ensures rt in states && fresh(states[rt]) && states[rt].Valid() && states[rt].runtime == rt
      ensures states[rt].registeredThemeNames == [] && states[rt].currentThemeName.None? && !states[rt].hasUserConfig
      ensures states.Keys == old(states).Keys + {rt}
      ensures forall other :: other in old(states) && other != rt ==> states[other] == old(states)[other]
    {
      if rt in states {
        states := states - {rt};
      }
      var state := new UnistylesState(rt);
      states := states[rt := state];
    }

    /**
     * Replaces a registered theme by what `callback` (a script function) returns for it;
     * fails, changing nothing, when the theme is unknown or the callback returns a non-object.
     */
    method UpdateTheme(rt: Runtime, themeName: string, callback: JsValue -> JsValue) returns (r: Outcome<JsError>)
      modifies StateFrame(rt)`jsThemes
      ensures Valid() ==> forall other :: other in states && other != rt ==> unchanged(states[other])
      ensures rt !in states ==> r.Fail?
      ensures rt in states ==>
        (r.Fail? <==> themeName !in old(states[rt].jsThemes) || !callback(old(states[rt].jsThemes)[themeName]).IsObject())
      ensures rt in states && r.Fail? ==> states[rt].jsThemes == old(states[rt].jsThemes)
      ensures rt in states && r.Pass? ==>
        && themeName in old(states[rt].jsThemes)
        && states[rt].jsThemes == old(states[rt].jsThemes)[themeName := callback(old(states[rt].jsThemes)[themeName])]
      ensures rt in states ==>
        states[rt].registeredThemeNames == old(states[rt].registeredThemeNames)
        && states[rt].currentThemeName == old(states[rt].currentThemeName)
      ensures rt in states && old(states[rt].Valid()) ==> states[rt].Valid()
    {
      var state := GetState(rt);
      if state.Err? {
        return Fail(state.error);
      }
      var s := state.value;
      r := AssertThat(themeName in s.jsThemes, UpdateUnknownThemeMessage(themeName));
      if r.Fail? {
        return;
      }
      var result := callback(s.jsThemes[themeName]);
      r := AssertThat(result.IsObject(), ThemeNotObjectMessage);
      if r.Fail? {
        return;
      }
      s.jsThemes := s.jsThemes[themeName := result];
    }

    /**
     * Appends the links of a family, in order, and stages the props parsed from them
     * (`parse` is the style parser) for that family.
     */
    method LinkShadowNodeWithUnistyle(rt: Runtime, family: Family, unistylesData: seq<UnistyleData>,
                                      parse: seq<UnistyleData> -> Dynamic)
      modifies this`shadowRegistry, trafficController
      ensures shadowRegistry == if |unistylesData| == 0 then old(shadowRegistry)
        else old(shadowRegistry)[rt := old(Links(rt))[family := LinksOf(old(Links(rt)), family) + unistylesData]]
      ensures LinksOf(Links(rt), family) == LinksOf(old(Links(rt)), family) + unistylesData
      ensures trafficController.updates == old(trafficController.updates)[family := parse(unistylesData)]
    {
      var i := 0;
      while i < |unistylesData|
        invariant 0 <= i <= |unistylesData|
        invariant shadowRegistry == if i == 0 then old(shadowRegistry)
          else old(shadowRegistry)[rt := old(Links(rt))[family := LinksOf(old(Links(rt)), family) + unistylesData[..i]]]
        modifies this`shadowRegistry
      {
        assert unistylesData[..i + 1] == unistylesData[..i] + [unistylesData[i]];
        ghost var base := old(Links(rt));
        ghost var prefix := LinksOf(base, family);
        assert Links(rt) == if i == 0 then base else base[family := prefix + unistylesData[..i]];
        assert LinksOf(Links(rt), family) == prefix + unistylesData[..i];
        assert (prefix + unistylesData[..i]) + [unistylesData[i]] == prefix + unistylesData[..i + 1];
        assert AddLink(Links(rt), family, unistylesData[i]) == Links(rt)[family := prefix + unistylesData[..i + 1]];
        assert Links(rt)[family := prefix + unistylesData[..i + 1]] == base[family := prefix + unistylesData[..i + 1]];
        shadowRegistry := shadowRegistry[rt := AddLink(Links(rt), family, unistylesData[i])];
        i := i + 1;
      }
      assert unistylesData[..i] == unistylesData;
      var updates := map[family := parse(unistylesData)];
      trafficController.SetUpdates(updates);
    }

    /**
     * Drops from `unistyles` those already linked to the family, keeping the order of the
     * rest; the lookup creates empty entries for the runtime and the family.
     */
    method RemoveDuplicatedUnistyles(rt: Runtime, family: Family, unistyles: seq<Unistyle>) returns (kept: seq<Unistyle>)
      modifies this`shadowRegistry
      ensures kept == NotLinked(unistyles, LinksOf(old(Links(rt)), family))
      ensures shadowRegistry == old(shadowRegistry)[rt := old(Links(rt))[family := LinksOf(old(Links(rt)), family)]]
    {
      var targetFamilyUnistyles := LinksOf(Links(rt), family);
      shadowRegistry := shadowRegistry[rt := Links(rt)[family := targetFamilyUnistyles]];
      kept := [];
      var i := 0;
      while i < |unistyles|
        invariant 0 <= i <= |unistyles|
        invariant kept == NotLinked(unistyles[..i], targetFamilyUnistyles)
      {
        if !IsLinked(unistyles[i], targetFamilyUnistyles) {
          kept := kept + [unistyles[i]];
        }
        assert unistyles[..i + 1][..i] == unistyles[..i];
        i := i + 1;
      }
      assert unistyles[..i] == unistyles;
    }

    /**
     * Forgets every link of a family and purges its pending update; a runtime whose table
     * becomes empty is dropped.
     */
    method UnlinkShadowNodeWithUnistyles(rt: Runtime, family: Family)
      modifies this`shadowRegistry, trafficController
      ensures Links(rt) == old(Links(rt)) - {family}
      ensures rt in shadowRegistry ==> shadowRegistry[rt] != map[]
      ensures forall other :: other != rt ==> (other in shadowRegistry <==> other in old(shadowRegistry))
      ensures forall other :: other in old(shadowRegistry) && other != rt ==>
        other in shadowRegistry && shadowRegistry[other] == old(shadowRegistry)[other]
      ensures family !in trafficController.updates
      ensures trafficController.updates == old(trafficController.updates) - {family}
    {
      var table := Links(rt) - {family};
      shadowRegistry := shadowRegistry[rt := table];
      trafficController.RemoveShadowNode(family);
      if shadowRegistry[rt] == map[] {
        shadowRegistry := shadowRegistry - {rt};
      }
    }

    /**
     * Stores a new style sheet under its tag, replacing any earlier one. Its unistyles are
     * filled in later by the style parser.
     */
    method AddStyleSheet(rt: Runtime, unid: int, kind: StyleSheetKind) returns (sheet: StyleSheet)
      modifies this`styleSheetRegistry
      ensures sheet == StyleSheet(unid, kind, map[])
      ensures Sheets(rt) == old(Sheets(rt))[unid := sheet]
      ensures forall other :: other in old(styleSheetRegistry) && other != rt ==> other in styleSheetRegistry && styleSheetRegistry[other] == old(styleSheetRegistry)[other]
      ensures styleSheetRegistry.Keys == old(styleSheetRegistry).Keys + {rt}
      ensures SheetsKeyed(old(styleSheetRegistry)) ==> SheetsKeyed(styleSheetRegistry)
    {
      sheet := StyleSheet(unid, kind, map[]);
      styleSheetRegistry := styleSheetRegistry[rt := Sheets(rt)[unid := sheet]];
    }

    /**
     * The families to re-render for a set of changed dependencies: a family is in the map
     * exactly when one of its links depends on a changed dependency, and then with all its
     * links (a spread may have mixed dependent and independent unistyles).
     */
    method BuildDependencyMap(rt: Runtime, deps: seq<Dependency>) returns (dependencyMap: LinkTable)
      modifies this`shadowRegistry
      ensures shadowRegistry == old(shadowRegistry)[rt := old(Links(rt))]
      ensures forall f :: f in dependencyMap <==> f in old(Links(rt)) && AnyLinkDepends(old(Links(rt))[f], deps)
      ensures forall f :: f in dependencyMap ==> dependencyMap[f] == old(Links(rt))[f]
    {
      // The C++ deduplicates `deps` into a set; membership is unaffected.
      var table := Links(rt);
      shadowRegistry := shadowRegistry[rt := table];
      dependencyMap := map[];
      var todo := table.Keys;
      while todo != {}
        invariant todo <= table.Keys
        invariant forall f :: f in dependencyMap <==> f in table && f !in todo && AnyLinkDepends(table[f], deps)
        invariant forall f :: f in dependencyMap ==> dependencyMap[f] == table[f]
        modifies {}
        decreases todo
      {
        var family :| family in todo;
        var unistyles := table[family];
        ghost var before := dependencyMap;
        ghost var found := false;
        var j := 0;
        while j < |unistyles|
          invariant 0 <= j <= |unistyles|
          invariant dependencyMap == before && !found
          invariant forall k :: 0 <= k < j ==> !HasAnyOf(unistyles[k].unistyle, deps)
        {
          if HasAnyOf(unistyles[j].unistyle, deps) {
            dependencyMap := CopyLinks(dependencyMap, family, unistyles);
            found := true;
            break;
          }
          j := j + 1;
        }
        assert found ==> dependencyMap == before[family := unistyles] && AnyLinkDepends(unistyles, deps);
        assert !found ==> dependencyMap == before && !AnyLinkDepends(unistyles, deps);
        todo := todo - {family};
      }
    }

    /**
     * Stages, for every family linked to `unistyle`, the props parsed from its last link to
     * it. `maybePressableId` is read but does not influence the result.
     */
    method ShadowLeafUpdateFromUnistyle(rt: Runtime, unistyle: Unistyle, maybePressableId: JsValue,
                                        parse: seq<UnistyleData> -> Dynamic)
      modifies this`shadowRegistry, trafficController
      ensures shadowRegistry == old(shadowRegistry)[rt := old(Links(rt))]
      ensures trafficController.updates == old(trafficController.updates) + LeafUpdates(old(Links(rt)), unistyle, parse)
    {
      var updates: map<Family, Dynamic> := map[];
      var pressableId: Option<string> := if maybePressableId.Str? then Some(maybePressableId.s) else None;
      var table := Links(rt);
      shadowRegistry := shadowRegistry[rt := table];
      var todo := table.Keys;
      while todo != {}
        invariant todo <= table.Keys
        invariant forall f :: f in updates <==> f in table && f !in todo && LastMatch(table[f], unistyle).Some?
        invariant forall f :: f in updates ==> updates[f] == parse([LastMatch(table[f], unistyle).value])
        modifies {}
        decreases todo
      {
        var family :| family in todo;
        var unistyles := table[family];
        ghost var before := updates;
        ghost var last: Option<UnistyleData> := None;
        var j := 0;
        while j < |unistyles|
          invariant 0 <= j <= |unistyles|
          invariant last == LastMatch(unistyles[..j], unistyle)
          invariant updates == if last.None? then before else before[family := parse([last.value])]
          modifies {}
        {
          LastMatchStep(unistyles, j, unistyle);
          if unistyles[j].unistyle == unistyle {
            if last.Some? {
              OverwriteTwice(before, family, parse([last.value]), parse([unistyles[j]]));
            }
            updates := updates[family := parse([unistyles[j]])];
            last := Some(unistyles[j]);
          }
          j := j + 1;
        }
        assert unistyles[..j] == unistyles;
        todo := todo - {family};
      }
      LeafUpdatesCharacterized(table, unistyle, parse, updates);
      trafficController.SetUpdates(updates);
    }

    /**
     * The style sheets to recompute for a set of changed dependencies, each once; nothing
     * when no dependency changed.
     */
    method GetStyleSheetsToRefresh(rt: Runtime, unistylesDependencies: seq<Dependency>) returns (stylesheetsToRefresh: seq<StyleSheet>)
      modifies this`styleSheetRegistry
      ensures |unistylesDependencies| == 0 ==> stylesheetsToRefresh == [] && styleSheetRegistry == old(styleSheetRegistry)
      ensures |unistylesDependencies| > 0 ==> styleSheetRegistry == old(styleSheetRegistry)[rt := old(Sheets(rt))]
      ensures forall i :: 0 <= i < |stylesheetsToRefresh| ==>
        stylesheetsToRefresh[i] in old(Sheets(rt)).Values && NeedsRefresh(stylesheetsToRefresh[i], unistylesDependencies)
      ensures forall k :: k in old(Sheets(rt)) && NeedsRefresh(old(Sheets(rt))[k], unistylesDependencies) ==>
        old(Sheets(rt))[k] in stylesheetsToRefresh
      ensures SheetsKeyed(old(styleSheetRegistry)) ==>
        forall i, j :: 0 <= i < j < |stylesheetsToRefresh| ==> stylesheetsToRefresh[i].tag != stylesheetsToRefresh[j].tag
    {
      var themeDidChange := Theme in unistylesDependencies;
      var runtimeDidChange := (themeDidChange && |unistylesDependencies| > 1) || |unistylesDependencies| > 0;
      if !themeDidChange && !runtimeDidChange {
        return [];
      }
      var styleSheets := Sheets(rt);
      styleSheetRegistry := styleSheetRegistry[rt := styleSheets];
      stylesheetsToRefresh := [];
      ghost var keys: seq<int> := [];
      var todo := styleSheets.Items;
      while todo != {}
        invariant todo <= styleSheets.Items
        invariant |keys| == |stylesheetsToRefresh|
        invariant forall i :: 0 <= i < |keys| ==>
          keys[i] in styleSheets && (keys[i], styleSheets[keys[i]]) !in todo && stylesheetsToRefresh[i] == styleSheets[keys[i]]
        invariant forall i, j :: 0 <= i < j < |keys| ==> keys[i] != keys[j]
        invariant forall i :: 0 <= i < |stylesheetsToRefresh| ==> NeedsRefresh(stylesheetsToRefresh[i], unistylesDependencies)
        invariant forall k :: k in styleSheets && (k, styleSheets[k]) !in todo && NeedsRefresh(styleSheets[k], unistylesDependencies) ==>
          styleSheets[k] in stylesheetsToRefresh
        decreases todo
      {
        var pair :| pair in todo;
        var (key, styleSheet) := pair;
        var refreshed := false;
        if styleSheet.kind == ThemableWithMiniRuntime {
          var unitsTodo := styleSheet.unistyles.Keys;
          while unitsTodo != {}
            invariant unitsTodo <= styleSheet.unistyles.Keys
            invariant !refreshed
            invariant forall n :: n in styleSheet.unistyles && n !in unitsTodo ==> !HasAnyOf(styleSheet.unistyles[n], unistylesDependencies)
            decreases unitsTodo
          {
            var name :| name in unitsTodo;
            if HasAnyOf(styleSheet.unistyles[name], unistylesDependencies) {
              stylesheetsToRefresh := stylesheetsToRefresh + [styleSheet];
              keys := keys + [key];
              refreshed := true;
              break;
            }
            unitsTodo := unitsTodo - {name};
          }
        }
        if !refreshed && styleSheet.kind == Themable && themeDidChange {
          stylesheetsToRefresh := stylesheetsToRefresh + [styleSheet];
          keys := keys + [key];
        }
        todo := todo - {pair};
      }
    }

    /** The first unistyle found with identifier `unistyleId`, if any style sheet has one. */
    method GetUnistyleById(rt: Runtime, unistyleId: string) returns (r: Option<Unistyle>)
      modifies this`styleSheetRegistry
      ensures styleSheetRegistry == old(styleSheetRegistry)[rt := old(Sheets(rt))]
      ensures r.None? <==> !HasUnistyleWithId(old(Sheets(rt)), unistyleId)
      ensures r.Some? ==> r.value.unid == unistyleId && IsUnistyleOf(old(Sheets(rt)), r.value)
    {
      var styleSheets := Sheets(rt);
      styleSheetRegistry := styleSheetRegistry[rt := styleSheets];
      var todo := styleSheets.Items;
      while todo != {}
        invariant todo <= styleSheets.Items
        invariant forall k :: k in styleSheets && (k, styleSheets[k]) !in todo ==> !SheetHasId(styleSheets[k], unistyleId)
        decreases todo
      {
        var pair :| pair in todo;
        var (_, stylesheet) := pair;
        var unitsTodo := stylesheet.unistyles.Keys;
        while unitsTodo != {}
          invariant unitsTodo <= stylesheet.unistyles.Keys
          invariant forall n :: n in stylesheet.unistyles && n !in unitsTodo ==> stylesheet.unistyles[n].unid != unistyleId
          decreases unitsTodo
        {
          var name :| name in unitsTodo;
          var unistyle := stylesheet.unistyles[name];
          if unistyle.unid == unistyleId {
            return Some(unistyle);
          }
          unitsTodo := unitsTodo - {name};
        }
        todo := todo - {pair};
      }
      return None;
    }

    function GetScopedTheme(): Option<string>
      reads this
    {
      scopedTheme
    }

    method SetScopedTheme(themeName: Option<string>)
      modifies this`scopedTheme
      ensures scopedTheme == themeName
    {
      scopedTheme := themeName;
    }
  }

  /** The kept candidates are exactly those not linked. */
  lemma {:induction false} NotLinkedMembership(candidates: seq<Unistyle>, links: seq<UnistyleData>, u: Unistyle)
    ensures u in NotLinked(candidates, links) <==> u in candidates && !IsLinked(u, links)
    decreases |candidates|
  {
    if |candidates| > 0 {
      var init := candidates[..|candidates| - 1];
      NotLinkedMembership(init, links, u);
      assert candidates == init + [candidates[|candidates| - 1]];
    }
  }

  /** Filtering a concatenation filters each part, so the survivors keep their order. */
  lemma {:induction false} NotLinkedAppend(a: seq<Unistyle>, b: seq<Unistyle>, links: seq<UnistyleData>)
    ensures NotLinked(a + b, links) == NotLinked(a, links) + NotLinked(b, links)
    decreases |b|
  {
    if |b| == 0 {
      assert a + b == a;
    } else {
      var initB := b[..|b| - 1];
      NotLinkedAppend(a, initB, links);
      assert (a + b)[..|a + b| - 1] == a + initB;
    }
  }

  /** Removing the linked unistyles twice removes nothing more. */
  lemma {:induction false} NotLinkedIdempotent(candidates: seq<Unistyle>, links: seq<UnistyleData>)
    ensures NotLinked(NotLinked(candidates, links), links) == NotLinked(candidates, links)
    decreases |candidates|
  {
    if |candidates| > 0 {
      var init := candidates[..|candidates| - 1];
      var last := candidates[|candidates| - 1];
      var tail := if IsLinked(last, links) then [] else [last];
      NotLinkedIdempotent(init, links);
      NotLinkedAppend(NotLinked(init, links), tail, links);
      if tail == [last] {
        assert NotLinked(tail, links) == NotLinked([], links) + [last];
      }
    }
  }

  /**
   * Once unistyles are linked to a family, asking again to link any of them removes them
   * all: linking is not repeated.
   */
  lemma {:induction false} LinkedCandidatesAreDropped(candidates: seq<Unistyle>, links: seq<UnistyleData>, added: seq<UnistyleData>)
    requires forall i :: 0 <= i < |candidates| ==> IsLinked(candidates[i], added)
    ensures NotLinked(candidates, links + added) == []
    decreases |candidates|
  {
    if |candidates| > 0 {
      var last := candidates[|candidates| - 1];
      var k :| 0 <= k < |added| && added[k].unistyle == last;
      assert (links + added)[|links| + k].unistyle == last;
      LinkedCandidatesAreDropped(candidates[..|candidates| - 1], links, added);
    }
  }
}
