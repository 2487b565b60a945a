/** The small stateless helpers shared by the native core (cxx/common/Helpers.h). */
module Helpers {
  import opened Wrappers
  import opened Js
  import opened Styles

  /** Throws (fails with `message`) exactly when the condition does not hold. */
  function AssertThat(condition: bool, message: string): (r: Outcome<JsError>)
    ensures r.Fail? <==> !condition
    ensures r.Fail? ==> r.error == JsError(message)
  {
    if !condition then Fail(JsError(message)) else Pass
  }

  // ---------------------------------------------------------------------------
  // vecContainsKeys

  /** Every key occurs in `vec`, and `vec` is not empty. */
  predicate ContainsKeys<T(==)>(vec: seq<T>, keys: seq<T>)
  {
    |vec| > 0 && forall k :: k in keys ==> k in vec
  }

  /**
   * Erases every element of `vec` from the set of wanted keys, one element at a time,
   * and answers true as soon as the set becomes empty.
   */
  method VecContainsKeys<T(==)>(vec: seq<T>, keys: seq<T>) returns (r: bool)
    ensures r <==> |vec| > 0 && forall k :: k in keys ==> k in vec
    ensures r == ContainsKeys(vec, keys)
  {
    var available := set k | k in keys;
    var i := 0;
    while i < |vec|
      invariant 0 <= i <= |vec|
      invariant available == (set k | k in keys) - (set j | 0 <= j < i :: vec[j])
      invariant i > 0 ==> available != {}
    {
      available := available - {vec[i]};
      if available == {} {
        forall k | k in keys ensures k in vec {
          assert k !in available;
        }
        return true;
      }
      i := i + 1;
    }
    if |vec| > 0 {
      var k :| k in available;
      assert k in keys && k !in vec;
    }
    return false;
  }

  /** With no keys the answer only says whether `vec` is non-empty. */
  lemma ContainsNoKeys<T>(vec: seq<T>)
    ensures ContainsKeys(vec, []) <==> |vec| > 0
  {
  }

  /** The answer depends only on which elements `vec` holds, not on their order or repetition. */
  lemma ContainsKeysIgnoresOrder<T>(vec1: seq<T>, vec2: seq<T>, keys: seq<T>)
    requires forall x :: x in vec1 <==> x in vec2
    ensures ContainsKeys(vec1, keys) == ContainsKeys(vec2, keys)
  {
    if |vec1| > 0 {
      assert vec1[0] in vec2;
    }
    if |vec2| > 0 {
      assert vec2[0] in vec1;
    }
  }

  // ---------------------------------------------------------------------------
  // variantsToPairs

  /** The text a variant value contributes, or None when the value is dropped. */
  function VariantText(v: JsValue): (t: Option<string>)
    ensures t.Some? <==> v.Bool? || v.Str?
  {
    match v
    case Bool(b) => Some(if b then "true" else "false")
    case Str(s) => Some(s)
    case _ => None
  }

  /** The (name, value) pairs of a variants object, in property order. */
  function VariantPairs(props: seq<(string, JsValue)>): (r: Variants)
    ensures |r| <= |props|
  {
    if props == [] then []
    else
      var last := props[|props| - 1];
      VariantPairs(props[..|props| - 1])
        + match VariantText(last.1) { case Some(t) => [(last.0, t)] case None => [] }
  }

  /** Enumerates the properties of a variants object and keeps the bool and string ones. */
  method VariantsToPairs(props: seq<(string, JsValue)>) returns (pairs: Variants)
    ensures pairs == VariantPairs(props)
  {
    pairs := [];
    var i := 0;
    while i < |props|
      invariant 0 <= i <= |props|
      invariant pairs == VariantPairs(props[..i])
    {
      assert props[..i + 1][..i] == props[..i];
      var (name, value) := props[i];
      if value.Undefined? || value.Null? {
        i := i + 1;
        continue;
      }
      if value.Bool? {
        pairs := pairs + [(name, if value.b then "true" else "false")];
        i := i + 1;
        continue;
      }
      if value.Str? {
        pairs := pairs + [(name, value.s)];
      }
      i := i + 1;
    }
    assert props[..i] == props;
  }

  /** Pairs are produced in property order: the pairs of a concatenation concatenate. */
  lemma {:induction false} VariantPairsAppend(a: seq<(string, JsValue)>, b: seq<(string, JsValue)>)
    ensures VariantPairs(a + b) == VariantPairs(a) + VariantPairs(b)
    decreases |b|
  {
    if b == [] {
      assert a + b == a;
    } else {
      var n := |b| - 1;
      assert (a + b)[..|a + b| - 1] == a + b[..n];
      VariantPairsAppend(a, b[..n]);
    }
  }

  /** A pair is produced exactly for a bool or string property with that name and text. */
  lemma {:induction false} VariantPairsMembership(props: seq<(string, JsValue)>, name: string, text: string)
    ensures (name, text) in VariantPairs(props)
        <==> exists i :: 0 <= i < |props| && props[i].0 == name && VariantText(props[i].1) == Some(text)
  {
    if props != [] {
      var n := |props| - 1;
      VariantPairsMembership(props[..n], name, text);
      if (name, text) in VariantPairs(props[..n]) {
        var i :| 0 <= i < n && props[..n][i].0 == name && VariantText(props[..n][i].1) == Some(text);
        assert props[i] == props[..n][i];
      }
      if exists i :: 0 <= i < |props| && props[i].0 == name && VariantText(props[i].1) == Some(text) {
        var i :| 0 <= i < |props| && props[i].0 == name && VariantText(props[i].1) == Some(text);
        if i < n {
          assert props[..n][i] == props[i];
        }
      }
    }
  }

  /** No two properties share a name (as in any object). */
  predicate DistinctNames<V>(props: seq<(string, V)>)
  {
    forall i, j :: 0 <= i < j < |props| ==> props[i].0 != props[j].0
  }

  /** The value of the property named `name`, if the object has one. */
  function Lookup(props: seq<(string, JsValue)>, name: string): (r: Option<JsValue>)
    ensures r.None? <==> forall i :: 0 <= i < |props| ==> props[i].0 != name
    ensures r.Some? ==> exists i :: 0 <= i < |props| && props[i] == (name, r.value)
  {
    if props == [] then None
    else if props[0].0 == name then Some(props[0].1)
    else
      var r := Lookup(props[1..], name);
      assert forall i :: 1 <= i < |props| ==> props[1..][i - 1] == props[i];
      r
  }

  /**
   * `setProperty`: overwrites the value of an existing property in place, and adds a new
   * property at the end otherwise.
   */
  function SetProperty(props: seq<(string, JsValue)>, name: string, value: JsValue): (r: seq<(string, JsValue)>)
    ensures Lookup(props, name).None? ==> r == props + [(name, value)]
    ensures Lookup(props, name).Some? ==> |r| == |props| && forall i :: 0 <= i < |r| ==> r[i].0 == props[i].0
  {
    if props == [] then [(name, value)]
    else if props[0].0 == name then [(name, value)] + props[1..]
    else
      var rest := SetProperty(props[1..], name, value);
      assert forall i :: 1 <= i < |props| ==> props[1..][i - 1] == props[i];
      var r := [props[0]] + rest;
      assert forall i :: 1 <= i < |r| ==> r[i] == rest[i - 1];
      r
  }

  /** `setProperty` keeps the names of an object distinct. */
  lemma SetPropertyDistinct(props: seq<(string, JsValue)>, name: string, value: JsValue)
    requires DistinctNames(props)
    ensures DistinctNames(SetProperty(props, name, value))
  {
    var r := SetProperty(props, name, value);
    forall i, j | 0 <= i < j < |r| ensures r[i].0 != r[j].0 {
      if j < |props| {
        assert r[i].0 == props[i].0 && r[j].0 == props[j].0;
      } else {
        assert r[j].0 == name && r[i] == props[i];
      }
    }
  }

  /** After `setProperty`, the name holds the new value and every other name keeps its value. */
  lemma {:induction false} SetPropertyLookup(props: seq<(string, JsValue)>, name: string, value: JsValue, n: string)
    ensures Lookup(SetProperty(props, name, value), n) == if n == name then Some(value) else Lookup(props, n)
  {
    if props != [] && props[0].0 != name {
      SetPropertyLookup(props[1..], name, value, n);
      assert SetProperty(props, name, value)[1..] == SetProperty(props[1..], name, value);
    }
  }

  /** The last value given to `name` in `pairs`, if any. */
  function LastValue(pairs: Variants, name: string): (r: Option<string>)
    ensures r.None? <==> forall i :: 0 <= i < |pairs| ==> pairs[i].0 != name
    ensures r.Some? ==> exists i :: 0 <= i < |pairs| && pairs[i] == (name, r.value)
                                    && forall j :: i < j < |pairs| ==> pairs[j].0 != name
  {
    if pairs == [] then None
    else if pairs[|pairs| - 1].0 == name then Some(pairs[|pairs| - 1].1)
    else
      var r := LastValue(pairs[..|pairs| - 1], name);
      r
  }

  /**
   * `pairsToVariantsValue`: a fresh object on which each pair is set in turn as a string
   * property, so a repeated name keeps its first position and its last value.
   */
  function PairsToProps(pairs: Variants): (props: seq<(string, JsValue)>)
    ensures DistinctNames(props)
    ensures forall n :: Lookup(props, n) == match LastValue(pairs, n) { case None => None case Some(t) => Some(Str(t)) }
  {
    if pairs == [] then []
    else
      var last := pairs[|pairs| - 1];
      var prefix := PairsToProps(pairs[..|pairs| - 1]);
      assert forall n :: Lookup(SetProperty(prefix, last.0, Str(last.1)), n)
                         == if n == last.0 then Some(Str(last.1)) else Lookup(prefix, n) by {
        forall n { SetPropertyLookup(prefix, last.0, Str(last.1), n); }
      }
      SetPropertyDistinct(prefix, last.0, Str(last.1));
      SetProperty(prefix, last.0, Str(last.1))
  }

  /** With distinct names, one string property per pair, in order. */
  lemma {:induction false} PairsToPropsDistinct(pairs: Variants)
    requires DistinctNames(pairs)
    ensures var props := PairsToProps(pairs);
      |props| == |pairs| && forall i :: 0 <= i < |pairs| ==> props[i] == (pairs[i].0, Str(pairs[i].1))
  {
    if pairs != [] {
      var n := |pairs| - 1;
      PairsToPropsDistinct(pairs[..n]);
      assert LastValue(pairs[..n], pairs[n].0).None?;
      assert Lookup(PairsToProps(pairs[..n]), pairs[n].0).None?;
    }
  }

  /** A repeated name: the later value overwrites the earlier one. */
  lemma RepeatedNameKeepsLast()
    ensures PairsToProps([("size", "small"), ("size", "large")]) == [("size", Str("large"))]
    ensures VariantPairs(PairsToProps([("size", "small"), ("size", "large")])) == [("size", "large")]
  {
    var pairs: Variants := [("size", "small"), ("size", "large")];
    assert pairs[..1] == [("size", "small")];
    assert pairs[..1][..0] == [];
    assert PairsToProps(pairs[..1]) == [("size", Str("small"))];
  }

  /** An object holding one string property per pair, in order, reads back as the pairs. */
  lemma {:induction false} StringPropsReadBack(props: seq<(string, JsValue)>, pairs: Variants)
    requires |props| == |pairs|
    requires forall i :: 0 <= i < |pairs| ==> props[i] == (pairs[i].0, Str(pairs[i].1))
    ensures VariantPairs(props) == pairs
  {
    if pairs != [] {
      var n := |pairs| - 1;
      StringPropsReadBack(props[..n], pairs[..n]);
      assert pairs[..n] + [pairs[n]] == pairs;
    }
  }

  /**
   * Converting pairs with distinct names that are not array indices to an object of strings
   * and back gives the same pairs.
   */
  lemma VariantPairsRoundTrip(pairs: Variants)
    requires DistinctNames(pairs)
    requires forall i :: 0 <= i < |pairs| ==> !IsIndexName(pairs[i].0)
    ensures VariantPairs(PairsToProps(pairs)) == pairs
  {
    PairsToPropsDistinct(pairs);
    StringPropsReadBack(PairsToProps(pairs), pairs);
  }

  /** A canonical array index such as "0" or "12", which objects enumerate before other names. */
  predicate IsIndexName(s: string)
  {
    && |s| > 0
    && (forall i :: 0 <= i < |s| ==> '0' <= s[i] <= '9')
    && (s[0] == '0' ==> |s| == 1)
  }

  // ---------------------------------------------------------------------------
  // parseDynamicFunctionArguments

  /** How one argument is converted, or None when it is dropped. */
  function ArgumentAsDynamic(v: JsValue): (d: Option<Dynamic>)
    ensures d.None? <==> v.Symbol? || v.BigInt? || (v.Object? && (v.kind == FunctionObject || v.kind == ArrayBufferObject))
  {
    match v
    case Bool(b) => Some(DBool(b))
    case Number(n) => Some(DNumber(n))
    case Str(s) => Some(DString(s))
    case Undefined => Some(DNull)
    case Null => Some(DNull)
    case Object(kind, _) =>
      if kind != FunctionObject && kind != ArrayBufferObject then Some(FromValue(v)) else None
    case _ => None
  }

  /** The converted arguments, in argument order. */
  function ParsedArguments(args: seq<JsValue>): (r: seq<Dynamic>)
    ensures |r| <= |args|
  {
    if args == [] then []
    else
      ParsedArguments(args[..|args| - 1])
        + match ArgumentAsDynamic(args[|args| - 1]) { case Some(d) => [d] case None => [] }
  }

  /** Converts a call's arguments to native values, skipping those that cannot be passed. */
  method ParseDynamicFunctionArguments(arguments: seq<JsValue>) returns (parsed: seq<Dynamic>)
    ensures parsed == ParsedArguments(arguments)
  {
    parsed := [];
    var i := 0;
    while i < |arguments|
      invariant 0 <= i <= |arguments|
      invariant parsed == ParsedArguments(arguments[..i])
    {
      assert arguments[..i + 1][..i] == arguments[..i];
      var arg := arguments[i];
      i := i + 1;
      if arg.Bool? {
        parsed := parsed + [DBool(arg.b)];
        continue;
      }
      if arg.Number? {
        parsed := parsed + [DNumber(arg.n)];
        continue;
      }
      if arg.Str? {
        parsed := parsed + [DString(arg.s)];
        continue;
      }
      if arg.Undefined? {
        parsed := parsed + [DNull];
        continue;
      }
      if arg.Null? {
        parsed := parsed + [DNull];
        continue;
      }
      if !arg.IsObject() {
        continue;
      }
      if arg.kind != FunctionObject && arg.kind != ArrayBufferObject {
        parsed := parsed + [FromValue(arg)];
        continue;
      }
    }
    assert arguments[..i] == arguments;
  }

  /** Nothing is dropped exactly when no argument is a function, buffer, symbol or big integer. */
  lemma {:induction false} ParsedArgumentsKeepsAll(args: seq<JsValue>)
    ensures |ParsedArguments(args)| == |args| <==> forall i :: 0 <= i < |args| ==> ArgumentAsDynamic(args[i]).Some?
  {
    if args != [] {
      var n := |args| - 1;
      ParsedArgumentsKeepsAll(args[..n]);
      assert forall i :: 0 <= i < n ==> args[..n][i] == args[i];
    }
  }

  /** When nothing is dropped, the i-th result is the conversion of the i-th argument. */
  lemma {:induction false} ParsedArgumentsPositional(args: seq<JsValue>, i: nat)
    requires forall j :: 0 <= j < |args| ==> ArgumentAsDynamic(args[j]).Some?
    requires i < |args|
    ensures |ParsedArguments(args)| == |args|
    ensures ParsedArguments(args)[i] == ArgumentAsDynamic(args[i]).value
  {
    var n := |args| - 1;
    assert forall j :: 0 <= j < n ==> args[..n][j] == args[j];
    ParsedArgumentsKeepsAll(args[..n]);
    if i < n {
      ParsedArgumentsPositional(args[..n], i);
    }
  }

  // ---------------------------------------------------------------------------
  // dependenciesToJSIArray

  /** Writes the integer code of each dependency into a fresh array of the same length. */
  method DependenciesToJSIArray(vec: seq<Dependency>) returns (result: array<JsValue>)
    ensures fresh(result)
    ensures result.Length == |vec|
    ensures forall i :: 0 <= i < |vec| ==> result[i] == Number(vec[i].Code())
  {
    result := new JsValue[|vec|](_ => Undefined);
    var i := 0;
    while i < |vec|
      invariant 0 <= i <= |vec|
      invariant forall j :: 0 <= j < i ==> result[j] == Number(vec[j].Code())
    {
      result[i] := Number(vec[i].Code());
      i := i + 1;
    }
  }

  /** Reads dependencies back from an array of codes; fails on anything that is not a code. */
  function DependenciesFromCodes(codes: seq<JsValue>): (r: Option<seq<Dependency>>)
    ensures r.Some? ==> |r.value| == |codes|
  {
    if codes == [] then Some([])
    else
      match DependenciesFromCodes(codes[..|codes| - 1])
      case None => None
      case Some(prefix) =>
        var last := codes[|codes| - 1];
        if last.Number? && FromCode(last.n).Some? then Some(prefix + [FromCode(last.n).value]) else None
  }

  /** Decoding the codes written for `vec` gives `vec` back. */
  lemma {:induction false} DependencyCodesRoundTrip(vec: seq<Dependency>, codes: seq<JsValue>)
    requires |codes| == |vec|
    requires forall i :: 0 <= i < |vec| ==> codes[i] == Number(vec[i].Code())
    ensures DependenciesFromCodes(codes) == Some(vec)
  {
    if vec != [] {
      var n := |vec| - 1;
      DependencyCodesRoundTrip(vec[..n], codes[..n]);
      assert codes[..|codes| - 1] == codes[..n];
      assert vec[..n] + [vec[n]] == vec;
    }
  }
}
