/** Failure-carrying wrappers used for every error path of the model. */
module Wrappers {

  datatype Option<+T> = None | Some(value: T)

  datatype Result<+R, +E> = Ok(value: R) | Err(error: E)

  /** The outcome of an operation that returns nothing but may throw. */
  datatype Outcome<+E> = Pass | Fail(error: E)
}

/**
 * Values crossing the boundary to the scripting runtime, as a tagged union.
 * Numbers are integers: floating point is not modelled.
 */
module Js {

  /** Which kind of object an object value is. */
  datatype ObjectKind = Plain | ArrayObject | FunctionObject | ArrayBufferObject

  datatype JsValue =
    | Undefined
    | Null
    | Bool(b: bool)
    | Number(n: int)
    | Str(s: string)
    | Symbol
    | BigInt
    | Object(kind: ObjectKind, props: seq<(string, JsValue)>)
  {
    predicate IsObject() { Object? }
  }

  /** An exception thrown into the scripting runtime. */
  datatype JsError = JsError(message: string)

  /** A scripting value that is an object (plain, array, function or buffer). */
  type ObjectValue = v: JsValue | v.Object? witness Object(Plain, [])

  /**
   * A native dynamic value (the props blob handed to the host). `FromValue` stands for the
   * host's deep conversion of a scripting object, which is not part of this model; it only
   * wraps objects, so `DNull` is the one null.
   */
  datatype Dynamic =
    | DNull
    | DBool(b: bool)
    | DNumber(n: int)
    | DString(s: string)
    | DObject(entries: seq<(string, Dynamic)>)
    | FromValue(v: ObjectValue)
}

/**
 * The passive style data shared by the registry and the helpers: dependency kinds,
 * style units, the links of a unit to a render node, and style sheets.
 */
module Styles {
  import opened Wrappers

  /** The identity token of a render-node family (a pointer in the host). */
  type Family = nat

  /** The identity of a scripting runtime (a pointer in the host). */
  type Runtime = nat

  /** The kinds of external input a style unit can react to, in declaration order. */
  datatype Dependency =
    | Theme | ThemeName | AdaptiveThemes | Breakpoints | Variants | ColorScheme
    | Dimensions | Orientation | ContentSizeCategory | Insets | PixelRatio | FontScale
    | StatusBar | NavigationBar | Ime | Rtl
  {
    /** The integer code of the dependency (its position in the enumeration). */
    function Code(): (c: nat)
      ensures c < 16
    {
      match this
      case Theme => 0 case ThemeName => 1 case AdaptiveThemes => 2 case Breakpoints => 3
      case Variants => 4 case ColorScheme => 5 case Dimensions => 6 case Orientation => 7
      case ContentSizeCategory => 8 case Insets => 9 case PixelRatio => 10 case FontScale => 11
      case StatusBar => 12 case NavigationBar => 13 case Ime => 14 case Rtl => 15
    }
  }

  /** The dependency with a given integer code, if there is one. */
  function FromCode(c: int): (d: Option<Dependency>)
    ensures d.Some? <==> 0 <= c < 16
    ensures d.Some? ==> d.value.Code() == c
  {
    if c == 0 then Some(Theme) else if c == 1 then Some(ThemeName)
    else if c == 2 then Some(AdaptiveThemes) else if c == 3 then Some(Breakpoints)
    else if c == 4 then Some(Variants) else if c == 5 then Some(ColorScheme)
    else if c == 6 then Some(Dimensions) else if c == 7 then Some(Orientation)
    else if c == 8 then Some(ContentSizeCategory) else if c == 9 then Some(Insets)
    else if c == 10 then Some(PixelRatio) else if c == 11 then Some(FontScale)
    else if c == 12 then Some(StatusBar) else if c == 13 then Some(NavigationBar)
    else if c == 14 then Some(Ime) else if c == 15 then Some(Rtl)
    else None
  }

  /** A variant selection: ordered (variant name, variant value) pairs. */
  type Variants = seq<(string, string)>

  /** One named style computation with the dependencies it declared at creation. */
  datatype Unistyle = Unistyle(unid: string, dependencies: seq<Dependency>)

  /** The attachment of a unistyle to a render node, with the variants active at link time. */
  datatype UnistyleData = UnistyleData(unistyle: Unistyle, variants: Variants)

  datatype StyleSheetKind = Static | Themable | ThemableWithMiniRuntime

  /** A style sheet: its id, its refresh kind and its style units keyed by property name. */
  datatype StyleSheet = StyleSheet(tag: int, kind: StyleSheetKind, unistyles: map<string, Unistyle>)

  /** True when the unistyle declares at least one of `deps`. */
  predicate HasAnyOf(u: Unistyle, deps: seq<Dependency>)
  {
    exists i :: 0 <= i < |u.dependencies| && u.dependencies[i] in deps
  }
}
