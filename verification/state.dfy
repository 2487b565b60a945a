/**
 * The per-runtime theme and breakpoint state (cxx/core/UnistylesState.cpp): registered
 * themes and their order, the selected theme, breakpoints, the adaptive-theme preference
 * and the color cache.
 */
module State {
  import opened Wrappers
  import opened Js
  import opened Styles
  import opened Helpers

  /** A breakpoint: its name and its threshold (integers; floating point is not modelled). */
  type Breakpoint = (string, int)

  class UnistylesState {
    const runtime: Runtime
    var jsThemes: map<string, JsValue>
    var registeredThemeNames: seq<string>
    var sortedBreakpointPairs: seq<Breakpoint>
    var currentThemeName: Option<string>
    var currentBreakpointName: Option<string>
    var prefersAdaptiveThemes: Option<bool>
    var initialThemeName: Option<string>
    var colorCache: map<string, int>
    var hasUserConfig: bool

    /**
     * The theme map holds exactly the registered names, and a selected theme is a
     * registered one.
     */
    ghost predicate Valid()
      reads this
    {
      && (forall n :: n in jsThemes <==> n in registeredThemeNames)
      && (currentThemeName.Some? ==> currentThemeName.value in registeredThemeNames)
    }

    constructor(rt: Runtime)
      ensures Valid()
      ensures runtime == rt && jsThemes == map[] && registeredThemeNames == [] && sortedBreakpointPairs == []
      ensures currentThemeName.None? && currentBreakpointName.None? && prefersAdaptiveThemes.None?
      ensures initialThemeName.None? && colorCache == map[] && !hasUserConfig
    {
      runtime := rt;
      jsThemes := map[];
      registeredThemeNames := [];
      sortedBreakpointPairs := [];
      currentThemeName := None;
      currentBreakpointName := None;
      prefersAdaptiveThemes := None;
      initialThemeName := None;
      colorCache := map[];
      hasUserConfig := false;
    }

    /** Adaptive themes are on only when preferred and both "light" and "dark" are registered. */
    function HasAdaptiveThemes(): (r: bool)
      reads this
      ensures r <==> (prefersAdaptiveThemes == Some(true)
                      && "light" in registeredThemeNames && "dark" in registeredThemeNames)
    {
      if prefersAdaptiveThemes.None? || !prefersAdaptiveThemes.value then false
      else ContainsKeys(registeredThemeNames, ["light", "dark"])
    }

    /** Selects a registered theme; fails, changing nothing, for a name never registered. */
    method SetTheme(themeName: string) returns (r: Outcome<JsError>)
      requires Valid()
      modifies this`currentThemeName
      ensures Valid()
      ensures r.Fail? <==> themeName !in registeredThemeNames
      ensures r.Fail? ==> currentThemeName == old(currentThemeName)
      ensures r.Pass? ==> currentThemeName == Some(themeName)
    {
      var registered := VecContainsKeys(registeredThemeNames, [themeName]);
      r := AssertThat(registered, "Unistyles: You're trying to set theme to: '" + themeName + "', but it wasn't registered.");
      if r.Fail? {
        return;
      }
      if Some(themeName) != currentThemeName {
        currentThemeName := Some(themeName);
      }
    }

    function GetCurrentThemeName(): Option<string>
      reads this
    {
      currentThemeName
    }

    /**
     * The theme object of the selected theme. With no registered themes: an error without
     * user configuration, an empty object with it. With themes: an error when none is
     * selected or the selected one has no theme object.
     */
    function GetCurrentJSTheme(): (r: Result<JsValue, JsError>)
      reads this
      ensures |registeredThemeNames| == 0 && !hasUserConfig ==> r.Err?
      ensures |registeredThemeNames| == 0 && hasUserConfig ==> r == Ok(Object(Plain, []))
      ensures |registeredThemeNames| > 0 && currentThemeName.None? ==> r.Err?
      ensures |registeredThemeNames| > 0 && currentThemeName.Some? && currentThemeName.value !in jsThemes ==> r.Err?
      ensures r.Ok? && |registeredThemeNames| > 0 ==>
        currentThemeName.Some? && currentThemeName.value in jsThemes && r.value == jsThemes[currentThemeName.value]
      ensures (Valid() && |registeredThemeNames| > 0 && currentThemeName.Some?
               && jsThemes[currentThemeName.value].IsObject()) ==> r.Ok?
    {
      var hasSomeThemes := |registeredThemeNames| > 0;
      if !hasSomeThemes && !hasUserConfig then
        Err(JsError(NotConfiguredMessage))
      else if !hasSomeThemes then
        Ok(Object(Plain, []))
      else if currentThemeName.None? then
        Err(JsError(NoThemeSelectedMessage))
      else if currentThemeName.value !in jsThemes then
        Err(JsError(ThemeNotRegisteredMessage(currentThemeName.value)))
      else
        AsObject(jsThemes[currentThemeName.value])
    }

    /** The theme object registered under `themeName`; fails for any other name. */
    function GetJSThemeByName(themeName: string): (r: Result<JsValue, JsError>)
      reads this
      ensures themeName !in jsThemes ==> r.Err?
      ensures r.Ok? ==> themeName in jsThemes && r.value == jsThemes[themeName]
      ensures themeName in jsThemes && jsThemes[themeName].IsObject() ==> r.Ok?
    {
      if themeName !in jsThemes then
        Err(JsError(ThemeNotRegisteredMessage(themeName)))
      else
        AsObject(jsThemes[themeName])
    }

    /**
     * Recomputes the current breakpoint from the screen width, unless no breakpoints are
     * registered. `breakpointFromWidth` is the host's width-to-breakpoint lookup.
     */
    method ComputeCurrentBreakpoint(screenWidth: int, breakpointFromWidth: (int, seq<Breakpoint>) -> string)
      modifies this`currentBreakpointName
      ensures |sortedBreakpointPairs| == 0 ==> currentBreakpointName == old(currentBreakpointName)
      ensures |sortedBreakpointPairs| > 0 ==>
        currentBreakpointName == Some(breakpointFromWidth(screenWidth, sortedBreakpointPairs))
    {
      if |sortedBreakpointPairs| == 0 {
        return;
      }
      currentBreakpointName := Some(breakpointFromWidth(screenWidth, sortedBreakpointPairs));
    }

    /** A theme name is known exactly when it was registered. */
    function HasTheme(themeName: string): (r: bool)
      reads this
      ensures r <==> themeName in registeredThemeNames
      ensures Valid() ==> (r <==> themeName in jsThemes)
    {
      ContainsKeys(registeredThemeNames, [themeName])
    }

    function HasInitialTheme(): bool
      reads this
    {
      initialThemeName.Some?
    }

    function GetRegisteredThemeNames(): seq<string>
      reads this
    {
      registeredThemeNames
    }

    function GetSortedBreakpointPairs(): seq<Breakpoint>
      reads this
    {
      sortedBreakpointPairs
    }

    function GetInitialTheme(): Option<string>
      reads this
    {
      initialThemeName
    }

    function GetCurrentBreakpointName(): Option<string>
      reads this
    {
      currentBreakpointName
    }

    /** The preference holds only when it was set, and set to true. */
    function GetPrefersAdaptiveThemes(): (r: bool)
      reads this
      ensures r <==> prefersAdaptiveThemes == Some(true)
    {
      prefersAdaptiveThemes.Some? && prefersAdaptiveThemes.value
    }

    /**
     * The numeric color of a color string: non-strings give 0; a string already cached gives
     * its cached value; otherwise `processColor` (the scripting runtime's color function) is
     * called once and its result cached.
     */
    method ParseColor(maybeColor: JsValue, processColor: string -> int) returns (color: int)
      modifies this`colorCache
      ensures !maybeColor.Str? ==> color == 0 && colorCache == old(colorCache)
      ensures maybeColor.Str? && maybeColor.s in old(colorCache) ==>
        color == old(colorCache)[maybeColor.s] && colorCache == old(colorCache)
      ensures maybeColor.Str? && maybeColor.s !in old(colorCache) ==>
        color == processColor(maybeColor.s) && colorCache == old(colorCache)[maybeColor.s := color]
      ensures maybeColor.Str? ==> maybeColor.s in colorCache && colorCache[maybeColor.s] == color
    {
      if !maybeColor.Str? {
        return 0;
      }
      var colorString := maybeColor.s;
      if colorString !in colorCache {
        var processed := processColor(colorString);
        colorCache := colorCache[colorString := if processed != 0 then processed else 0];
      }
      return colorCache[colorString];
    }
  }

  const NotConfiguredMessage: string :=
    "Unistyles: One of your stylesheets is trying to get the theme, but no theme has been selected yet. Did you forget to call StyleSheet.configure? If you called it, make sure you did so before any StyleSheet.create."

  const NoThemeSelectedMessage: string :=
    "Unistyles: One of your stylesheets is trying to get the theme, but no theme has been selected yet. Did you forget to select an initial theme?"

  function ThemeNotRegisteredMessage(themeName: string): string
  {
    "Unistyles: You're trying to get theme '" + themeName + "', but it was not registered. Did you forget to register it with StyleSheet.configure?"
  }

  /** jsi's asObject: the value itself when it is an object, an error otherwise. */
  function AsObject(v: JsValue): (r: Result<JsValue, JsError>)
    ensures r.Ok? <==> v.IsObject()
    ensures r.Ok? ==> r.value == v
  {
    if v.IsObject() then Ok(v) else Err(JsError("Value is not an Object"))
  }
}
