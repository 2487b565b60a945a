/**
 * The Babel rewrite of imports of "exotic" components (plugin/exotic.js): an import of a
 * component that a rule names is redirected to the library's own native component module.
 * The plugin works on a path that holds one import declaration; it can replace that
 * declaration and insert declarations before it.
 */
module Exotic {
  import opened Wrappers

  datatype Specifier =
    | DefaultSpecifier(local: string)
    | NamedSpecifier(imported: string, local: string)
    | NamespaceSpecifier(local: string)

  /** An import declaration; `importKind` is unset on declarations the plugin builds. */
  datatype ImportDecl = ImportDecl(importKind: Option<string>, specifiers: seq<Specifier>, source: string)

  /** A redirection rule: the component `name` (or the default export) of module `path` moves to `mapTo`. */
  datatype Rule = Rule(name: string, isDefault: bool, path: string, mapTo: string)

  /** The plugin options that matter here, and the name of the file being compiled. */
  datatype PluginOptions = PluginOptions(isLocal: bool, filename: string)

  /** What the path holds after a rewrite: the declarations inserted before it, and its node. */
  datatype Rewrite = Rewrite(inserted: seq<ImportDecl>, node: ImportDecl)

  const PackageName: string := "react-native-unistyles"
  const NativeComponents: string := "react-native-unistyles/components/native/"

  /**
   * A rule matches a specifier of a declaration importing `sourceValue` when the path is the
   * rule's and either the rule is a default rule and the specifier a default one, or the rule
   * is a named rule and the specifier a named one with the rule's local name.
   */
  predicate Matches(rule: Rule, specifier: Specifier, sourceValue: string)
  {
    var hasMatchingImportType := (!rule.isDefault && specifier.NamedSpecifier?) || (rule.isDefault && specifier.DefaultSpecifier?);
    var hasMatchingImportName := rule.isDefault || (!rule.isDefault && rule.name == specifier.local);
    var hasMatchingPath := rule.path == sourceValue;
    hasMatchingImportType && hasMatchingImportName && hasMatchingPath
  }

  /** The first rule that matches, if any. */
  function FirstMatch(rules: seq<Rule>, specifier: Specifier, sourceValue: string): (r: Option<Rule>)
    ensures r.None? <==> forall i :: 0 <= i < |rules| ==> !Matches(rules[i], specifier, sourceValue)
    ensures r.Some? ==> exists i :: 0 <= i < |rules| && rules[i] == r.value && Matches(r.value, specifier, sourceValue)
                                    && forall j :: 0 <= j < i ==> !Matches(rules[j], specifier, sourceValue)
  {
    if |rules| == 0 then None
    else if Matches(rules[0], specifier, sourceValue) then Some(rules[0])
    else
      var r := FirstMatch(rules[1..], specifier, sourceValue);
      assert forall i :: 1 <= i < |rules| ==> rules[1..][i - 1] == rules[i];
      r
  }

  /** A rule that matches after only non-matching ones is the first match. */
  lemma FirstMatchAt(rules: seq<Rule>, j: nat, specifier: Specifier, sourceValue: string)
    requires j < |rules| && Matches(rules[j], specifier, sourceValue)
    requires forall i :: 0 <= i < j ==> !Matches(rules[i], specifier, sourceValue)
    ensures FirstMatch(rules, specifier, sourceValue) == Some(rules[j])
  {
    var r := FirstMatch(rules, specifier, sourceValue);
    var i :| 0 <= i < |rules| && rules[i] == r.value && Matches(r.value, specifier, sourceValue)
             && forall k :: 0 <= k < i ==> !Matches(rules[k], specifier, sourceValue);
    assert !(i < j) && !(j < i);
  }

  /** `s.split(sep).at(0)`: the text before the first occurrence of `sep`, or all of `s`. */
  function TextBefore(s: string, sep: string): (r: string)
    requires |sep| > 0
    ensures r <= s
    ensures |r| < |s| ==> sep <= s[|r|..]
    ensures |r| == |s| ==> forall i :: 0 <= i <= |s| ==> !(sep <= s[i..])
    ensures forall i :: 0 <= i < |r| ==> !(sep <= s[i..])
    decreases |s|
  {
    if sep <= s then []
    else if |s| == 0 then []
    else
      var rest := TextBefore(s[1..], sep);
      assert forall i :: 1 <= i <= |s| ==> s[1..][i - 1..] == s[i..];
      [s[0]] + rest
  }

  /** The module a rule redirects to; with `isLocal`, rooted where the file sits in the library. */
  function NewSource(mapTo: string, opts: PluginOptions): (r: string)
    ensures !opts.isLocal ==> r == NativeComponents + mapTo
    ensures opts.isLocal ==> r == TextBefore(opts.filename, PackageName) + NativeComponents + mapTo
  {
    if opts.isLocal then TextBefore(opts.filename, PackageName) + (NativeComponents + mapTo)
    else NativeComponents + mapTo
  }

  /** `specifiers.filter(s => s !== specifier)`. */
  function Remove(specifiers: seq<Specifier>, specifier: Specifier): (r: seq<Specifier>)
    ensures forall s :: s in r <==> s in specifiers && s != specifier
    ensures |r| == 0 <==> forall s :: s in specifiers ==> s == specifier
    ensures |r| <= |specifiers|
  {
    if |specifiers| == 0 then []
    else
      assert specifiers[0] in specifiers;
      assert forall s :: s in specifiers <==> s == specifiers[0] || s in specifiers[1..];
      (if specifiers[0] == specifier then [] else [specifiers[0]]) + Remove(specifiers[1..], specifier)
  }

  /**
   * One specifier of the forEach. `remaining` is what the matched named specifier is removed
   * from: the original list in the plugin as written, the current node's list once corrected.
   */
  function Step(st: Rewrite, remaining: seq<Specifier>, specifier: Specifier, sourceValue: string,
                rules: seq<Rule>, opts: PluginOptions): Rewrite
  {
    match FirstMatch(rules, specifier, sourceValue)
    case None => st
    case Some(rule) =>
      if specifier.DefaultSpecifier? then
        st.(node := ImportDecl(None, [DefaultSpecifier(specifier.local)], NewSource(rule.mapTo, opts)))
      else
        var newImport := ImportDecl(None, [NamedSpecifier(rule.mapTo, rule.mapTo)], NewSource(rule.mapTo, opts));
        var node := st.node.(specifiers := Remove(remaining, specifier));
        if |node.specifiers| == 0 then Rewrite(st.inserted, newImport)
        else Rewrite(st.inserted + [newImport], node)
  }

  /** The first `n` specifiers processed, filtering from the original list (as written). */
  function RunAsWritten(init: Rewrite, specifiers: seq<Specifier>, sourceValue: string, rules: seq<Rule>,
                        opts: PluginOptions, n: nat): Rewrite
    requires n <= |specifiers|
  {
    if n == 0 then init
    else
      var st := RunAsWritten(init, specifiers, sourceValue, rules, opts, n - 1);
      Step(st, specifiers, specifiers[n - 1], sourceValue, rules, opts)
  }

  /** The first `n` specifiers processed, filtering from the current node's list (corrected). */
  function RunCorrected(init: Rewrite, specifiers: seq<Specifier>, sourceValue: string, rules: seq<Rule>,
                        opts: PluginOptions, n: nat): Rewrite
    requires n <= |specifiers|
  {
    if n == 0 then init
    else
      var st := RunCorrected(init, specifiers, sourceValue, rules, opts, n - 1);
      Step(st, st.node.specifiers, specifiers[n - 1], sourceValue, rules, opts)
  }

  /** The whole rewrite as written; declarations other than value imports are left alone. */
  function AsWritten(init: Rewrite, rules: seq<Rule>, opts: PluginOptions): Rewrite
  {
    if init.node.importKind != Some("value") then init
    else RunAsWritten(init, init.node.specifiers, init.node.source, rules, opts, |init.node.specifiers|)
  }

  /** The whole rewrite, corrected. */
  function Corrected(init: Rewrite, rules: seq<Rule>, opts: PluginOptions): Rewrite
  {
    if init.node.importKind != Some("value") then init
    else RunCorrected(init, init.node.specifiers, init.node.source, rules, opts, |init.node.specifiers|)
  }

  /** The Babel path of one import declaration. */
  class ImportPath {
    var inserted: seq<ImportDecl>
    var node: ImportDecl

    constructor(decl: ImportDecl)
      ensures inserted == [] && node == decl
    {
      inserted := [];
      node := decl;
    }

    method ReplaceWith(decl: ImportDecl)
      modifies this`node
      ensures node == decl
    {
      node := decl;
    }

    method InsertBefore(decl: ImportDecl)
      modifies this`inserted
      ensures inserted == old(inserted) + [decl]
    {
      inserted := inserted + [decl];
    }

    method SetSpecifiers(specifiers: seq<Specifier>)
      modifies this`node
      ensures node == old(node).(specifiers := specifiers)
    {
      node := node.(specifiers := specifiers);
    }
  }

  /**
   * The forEach callback for one specifier: the first matching rule rewrites the path.
   * `remaining` is the list the matched named specifier is removed from.
   */
  method HandleSpecifier(path: ImportPath, remaining: seq<Specifier>, specifier: Specifier, source: string,
                         rules: seq<Rule>, opts: PluginOptions)
    modifies path
    ensures Rewrite(path.inserted, path.node)
      == Step(Rewrite(old(path.inserted), old(path.node)), remaining, specifier, source, rules, opts)
  {
    var j := 0;
    while j < |rules|
      invariant 0 <= j <= |rules|
      invariant forall i :: 0 <= i < j ==> !Matches(rules[i], specifier, source)
      invariant path.inserted == old(path.inserted) && path.node == old(path.node)
    {
      var rule := rules[j];
      var hasMatchingImportType := (!rule.isDefault && specifier.NamedSpecifier?) || (rule.isDefault && specifier.DefaultSpecifier?);
      var hasMatchingImportName := rule.isDefault || (!rule.isDefault && rule.name == specifier.local);
      var hasMatchingPath := rule.path == source;
      if !hasMatchingImportType || !hasMatchingImportName || !hasMatchingPath {
        j := j + 1;
        continue;
      }
      FirstMatchAt(rules, j, specifier, source);
      if specifier.DefaultSpecifier? {
        var newImport := ImportDecl(None, [DefaultSpecifier(specifier.local)], NewSource(rule.mapTo, opts));
        path.ReplaceWith(newImport);
      } else {
        var newImport := ImportDecl(None, [NamedSpecifier(rule.mapTo, rule.mapTo)], NewSource(rule.mapTo, opts));
        path.SetSpecifiers(Remove(remaining, specifier));
        if |path.node.specifiers| == 0 {
          path.ReplaceWith(newImport);
        } else {
          path.InsertBefore(newImport);
        }
      }
      return;
    }
    assert FirstMatch(rules, specifier, source).None?;
  }

  /** `handleExoticImport` as written: a matched named specifier is filtered from the original list. */
  method HandleExoticImport(path: ImportPath, rules: seq<Rule>, opts: PluginOptions)
    modifies path
    ensures Rewrite(path.inserted, path.node) == AsWritten(Rewrite(old(path.inserted), old(path.node)), rules, opts)
  {
    var specifiers := path.node.specifiers;
    var source := path.node.source;
    if path.node.importKind != Some("value") {
      return;
    }
    ghost var init := Rewrite(path.inserted, path.node);
    var k := 0;
    while k < |specifiers|
      invariant 0 <= k <= |specifiers|
      invariant Rewrite(path.inserted, path.node) == RunAsWritten(init, specifiers, source, rules, opts, k)
    {
      HandleSpecifier(path, specifiers, specifiers[k], source, rules, opts);
      k := k + 1;
    }
  }

  /** `handleExoticImport` corrected: a matched named specifier is filtered from the node's current list. */
  method HandleExoticImportCorrected(path: ImportPath, rules: seq<Rule>, opts: PluginOptions)
    modifies path
    ensures Rewrite(path.inserted, path.node) == Corrected(Rewrite(old(path.inserted), old(path.node)), rules, opts)
  {
    var specifiers := path.node.specifiers;
    var source := path.node.source;
    if path.node.importKind != Some("value") {
      return;
    }
    ghost var init := Rewrite(path.inserted, path.node);
    var k := 0;
    while k < |specifiers|
      invariant 0 <= k <= |specifiers|
      invariant Rewrite(path.inserted, path.node) == RunCorrected(init, specifiers, source, rules, opts, k)
    {
      HandleSpecifier(path, path.node.specifiers, specifiers[k], source, rules, opts);
      k := k + 1;
    }
  }

  // ---- Properties ----

  /** Type-only and other non-value imports are left untouched. */
  lemma NonValueImportUntouched(init: Rewrite, rules: seq<Rule>, opts: PluginOptions)
    requires init.node.importKind != Some("value")
    ensures AsWritten(init, rules, opts) == init && Corrected(init, rules, opts) == init
  {
  }

  /** A specifier no rule matches leaves the path as it is. */
  lemma StepUnmatched(st: Rewrite, remaining: seq<Specifier>, specifier: Specifier, source: string,
                      rules: seq<Rule>, opts: PluginOptions)
    requires forall i :: 0 <= i < |rules| ==> !Matches(rules[i], specifier, source)
    ensures Step(st, remaining, specifier, source, rules, opts) == st
  {
  }

  /**
   * A default specifier whose first matching rule is `rules[j]` replaces the whole node by a
   * default import of the same local name from the rule's module: every other specifier the
   * node held is dropped, and nothing is inserted.
   */
  lemma StepDefault(st: Rewrite, remaining: seq<Specifier>, specifier: Specifier, source: string,
                    rules: seq<Rule>, opts: PluginOptions, j: nat)
    requires specifier.DefaultSpecifier?
    requires j < |rules| && Matches(rules[j], specifier, source)
    requires forall i :: 0 <= i < j ==> !Matches(rules[i], specifier, source)
    ensures var r := Step(st, remaining, specifier, source, rules, opts);
      && r.inserted == st.inserted
      && r.node == ImportDecl(None, [specifier], NewSource(rules[j].mapTo, opts))
      && rules[j].isDefault && rules[j].path == source
  {
    FirstMatchAt(rules, j, specifier, source);
  }

  /**
   * A named specifier whose first matching rule is `rules[j]`: the node keeps exactly the
   * specifiers of `remaining` other than it, and an import of `mapTo` from the rule's module
   * is inserted before the node, or replaces the node when nothing is kept.
   */
  lemma StepNamed(st: Rewrite, remaining: seq<Specifier>, specifier: Specifier, source: string,
                  rules: seq<Rule>, opts: PluginOptions, j: nat)
    requires specifier.NamedSpecifier?
    requires j < |rules| && Matches(rules[j], specifier, source)
    requires forall i :: 0 <= i < j ==> !Matches(rules[i], specifier, source)
    ensures var r := Step(st, remaining, specifier, source, rules, opts);
      var newImport := ImportDecl(None, [NamedSpecifier(rules[j].mapTo, rules[j].mapTo)], NewSource(rules[j].mapTo, opts));
      && !rules[j].isDefault && rules[j].name == specifier.local && rules[j].path == source
      && ((forall s :: s in remaining ==> s == specifier) ==> r == Rewrite(st.inserted, newImport))
      && ((exists s :: s in remaining && s != specifier) ==>
            && r.inserted == st.inserted + [newImport]
            && r.node.importKind == st.node.importKind && r.node.source == st.node.source
            && forall s :: s in r.node.specifiers <==> s in remaining && s != specifier)
  {
    FirstMatchAt(rules, j, specifier, source);
  }

  /**
   * As written, a matched default specifier at position `k` of any declaration: after its step
   * the path holds only the redirected default import, whatever the declaration held beside it.
   */
  lemma DefaultStepReplacesDeclaration(init: Rewrite, rules: seq<Rule>, opts: PluginOptions, k: nat)
    requires k < |init.node.specifiers| && init.node.specifiers[k].DefaultSpecifier?
    requires FirstMatch(rules, init.node.specifiers[k], init.node.source).Some?
    ensures var specifiers, source := init.node.specifiers, init.node.source;
      var rule := FirstMatch(rules, specifiers[k], source).value;
      var before := RunAsWritten(init, specifiers, source, rules, opts, k);
      var after := RunAsWritten(init, specifiers, source, rules, opts, k + 1);
      after == Rewrite(before.inserted, ImportDecl(None, [specifiers[k]], NewSource(rule.mapTo, opts)))
  {
    var specifiers, source := init.node.specifiers, init.node.source;
    var rule := FirstMatch(rules, specifiers[k], source).value;
    var j :| 0 <= j < |rules| && rules[j] == rule && Matches(rule, specifiers[k], source)
             && forall i :: 0 <= i < j ==> !Matches(rules[i], specifiers[k], source);
    StepDefault(RunAsWritten(init, specifiers, source, rules, opts, k), specifiers, specifiers[k], source, rules, opts, j);
  }

  /** A matched default import becomes a default import of the same local name from the new module. */
  lemma DefaultImportRedirected(local: string, source: string, rules: seq<Rule>, opts: PluginOptions)
    requires FirstMatch(rules, DefaultSpecifier(local), source).Some?
    ensures var rule := FirstMatch(rules, DefaultSpecifier(local), source).value;
      var decl := ImportDecl(Some("value"), [DefaultSpecifier(local)], source);
      && AsWritten(Rewrite([], decl), rules, opts) == Rewrite([], ImportDecl(None, [DefaultSpecifier(local)], NewSource(rule.mapTo, opts)))
      && rule.isDefault && rule.path == source
  {
    var decl := ImportDecl(Some("value"), [DefaultSpecifier(local)], source);
    var init := Rewrite([], decl);
    assert RunAsWritten(init, decl.specifiers, source, rules, opts, 0) == init;
    DefaultStepReplacesDeclaration(init, rules, opts, 0);
  }

  /**
   * `import D, { X } from 'lib'` with a rule for the default import only: the named
   * specifier `X` is imported from nowhere afterwards.
   */
  lemma DefaultImportDropsNamedSibling(local: string, other: Specifier, source: string, rules: seq<Rule>, opts: PluginOptions)
    requires other.NamedSpecifier?
    requires FirstMatch(rules, DefaultSpecifier(local), source).Some?
    requires FirstMatch(rules, other, source).None?
    ensures var rule := FirstMatch(rules, DefaultSpecifier(local), source).value;
      var decl := ImportDecl(Some("value"), [DefaultSpecifier(local), other], source);
      var r := AsWritten(Rewrite([], decl), rules, opts);
      && r == Rewrite([], ImportDecl(None, [DefaultSpecifier(local)], NewSource(rule.mapTo, opts)))
      && other !in r.node.specifiers
  {
    var decl := ImportDecl(Some("value"), [DefaultSpecifier(local), other], source);
    var init := Rewrite([], decl);
    assert RunAsWritten(init, decl.specifiers, source, rules, opts, 0) == init;
    DefaultStepReplacesDeclaration(init, rules, opts, 0);
    var st1 := RunAsWritten(init, decl.specifiers, source, rules, opts, 1);
    assert decl.specifiers[1] == other;
    assert RunAsWritten(init, decl.specifiers, source, rules, opts, 2) == Step(st1, decl.specifiers, other, source, rules, opts);
  }

  /**
   * A named specifier matched alongside an unmatched one: the new import is inserted before
   * the declaration, which keeps only the unmatched specifier.
   */
  lemma NamedImportSplitOff(matched: string, other: Specifier, source: string, rules: seq<Rule>, opts: PluginOptions)
    requires FirstMatch(rules, NamedSpecifier(matched, matched), source).Some?
    requires FirstMatch(rules, other, source).None?
    requires other != NamedSpecifier(matched, matched)
    ensures var rule := FirstMatch(rules, NamedSpecifier(matched, matched), source).value;
      var decl := ImportDecl(Some("value"), [NamedSpecifier(matched, matched), other], source);
      AsWritten(Rewrite([], decl), rules, opts)
        == Rewrite([ImportDecl(None, [NamedSpecifier(rule.mapTo, rule.mapTo)], NewSource(rule.mapTo, opts))],
                   decl.(specifiers := [other]))
  {
    var spec := NamedSpecifier(matched, matched);
    var decl := ImportDecl(Some("value"), [spec, other], source);
    var init := Rewrite([], decl);
    assert RunAsWritten(init, decl.specifiers, source, rules, opts, 0) == init;
    assert decl.specifiers[0] == spec && decl.specifiers[1] == other;
    var rule := FirstMatch(rules, spec, source).value;
    var j :| 0 <= j < |rules| && rules[j] == rule && Matches(rule, spec, source)
             && forall i :: 0 <= i < j ==> !Matches(rules[i], spec, source);
    StepNamed(init, decl.specifiers, spec, source, rules, opts, j);
    var st1 := RunAsWritten(init, decl.specifiers, source, rules, opts, 1);
    assert st1 == Step(init, decl.specifiers, spec, source, rules, opts);
    assert RunAsWritten(init, decl.specifiers, source, rules, opts, 2) == st1;
    assert Remove([spec, other], spec) == [other] by {
      assert [spec, other][1..] == [other];
      assert Remove([other], spec) == [other] by { assert [other][1..] == []; }
    }
  }

  /**
   * As written, two matched named specifiers of one declaration: the second step filters the
   * original list again, so the first specifier comes back into the original declaration.
   */
  lemma AsWrittenRestoresMatchedSpecifier()
    ensures var a, b := NamedSpecifier("A", "A"), NamedSpecifier("B", "B");
      var decl := ImportDecl(Some("value"), [a, b], "lib");
      var rules := [Rule("A", false, "lib", "A"), Rule("B", false, "lib", "B")];
      var r := AsWritten(Rewrite([], decl), rules, PluginOptions(false, ""));
      r.node.source == "lib" && a in r.node.specifiers && FirstMatch(rules, a, "lib").Some?
  {
    var a, b := NamedSpecifier("A", "A"), NamedSpecifier("B", "B");
    var rules := [Rule("A", false, "lib", "A"), Rule("B", false, "lib", "B")];
    assert Matches(rules[0], a, "lib");
    assert !Matches(rules[0], b, "lib") && Matches(rules[1], b, "lib");
    FirstMatchAt(rules, 0, a, "lib");
    FirstMatchAt(rules, 1, b, "lib");
    assert Remove([a, b], a) == [b] by { assert [a, b][1..] == [b]; assert [b][1..] == []; }
    assert Remove([a, b], b) == [a] by { assert [a, b][1..] == [b]; assert [b][1..] == []; }
    var decl := ImportDecl(Some("value"), [a, b], "lib");
    var opts := PluginOptions(false, "");
    var init := Rewrite([], decl);
    assert RunAsWritten(init, decl.specifiers, "lib", rules, opts, 0) == init;
    assert decl.specifiers[0] == a && decl.specifiers[1] == b;
    var st1 := RunAsWritten(init, decl.specifiers, "lib", rules, opts, 1);
    assert st1 == Step(init, decl.specifiers, a, "lib", rules, opts);
    assert st1.node == decl.(specifiers := [b]);
    var st2 := RunAsWritten(init, decl.specifiers, "lib", rules, opts, 2);
    assert st2 == Step(st1, decl.specifiers, b, "lib", rules, opts);
    assert st2.node == decl.(specifiers := [a]);
  }

  /**
   * What the original declaration may still import after `n` specifiers: only original
   * specifiers, and none of the first `n` that a rule matched.
   */
  ghost predicate OnlyUnmatchedLeft(node: ImportDecl, original: seq<Specifier>, source: string, rules: seq<Rule>, n: nat)
    requires n <= |original|
  {
    node.source == source ==>
      forall s :: s in node.specifiers ==>
        s in original && (s in original[..n] ==> FirstMatch(rules, s, source).None?)
  }

  /** One corrected step keeps the property, with one more specifier processed. */
  lemma CorrectedStepDropsMatched(init: Rewrite, rules: seq<Rule>, opts: PluginOptions, n: nat)
    requires n < |init.node.specifiers|
    requires forall i :: 0 <= i < |rules| ==> NewSource(rules[i].mapTo, opts) != init.node.source
    requires OnlyUnmatchedLeft(RunCorrected(init, init.node.specifiers, init.node.source, rules, opts, n).node,
                               init.node.specifiers, init.node.source, rules, n)
    ensures OnlyUnmatchedLeft(RunCorrected(init, init.node.specifiers, init.node.source, rules, opts, n + 1).node,
                              init.node.specifiers, init.node.source, rules, n + 1)
  {
    var original, source := init.node.specifiers, init.node.source;
    var st := RunCorrected(init, original, source, rules, opts, n);
    var specifier := original[n];
    assert RunCorrected(init, original, source, rules, opts, n + 1) == Step(st, st.node.specifiers, specifier, source, rules, opts);
    assert original[..n + 1] == original[..n] + [specifier];
    match FirstMatch(rules, specifier, source)
    case None =>
    case Some(rule) =>
      assert rule in rules;
      assert NewSource(rule.mapTo, opts) != source;
  }

  /**
   * Corrected: when no rule redirects to the declaration's own module, whatever is still
   * imported from that module is a specifier no rule matches.
   */
  lemma {:induction false} CorrectedDropsMatched(init: Rewrite, rules: seq<Rule>, opts: PluginOptions, n: nat)
    requires n <= |init.node.specifiers|
    requires forall i :: 0 <= i < |rules| ==> NewSource(rules[i].mapTo, opts) != init.node.source
    ensures OnlyUnmatchedLeft(RunCorrected(init, init.node.specifiers, init.node.source, rules, opts, n).node,
                              init.node.specifiers, init.node.source, rules, n)
    decreases n
  {
    if n == 0 {
      assert RunCorrected(init, init.node.specifiers, init.node.source, rules, opts, 0) == init;
    } else {
      CorrectedDropsMatched(init, rules, opts, n - 1);
      CorrectedStepDropsMatched(init, rules, opts, n - 1);
    }
  }

  /** Corrected, over the whole declaration. */
  lemma {:induction false} CorrectedLeavesNoMatchedImport(init: Rewrite, rules: seq<Rule>, opts: PluginOptions)
    requires init.node.importKind == Some("value")
    requires forall i :: 0 <= i < |rules| ==> NewSource(rules[i].mapTo, opts) != init.node.source
    ensures var r := Corrected(init, rules, opts);
      r.node.source == init.node.source ==>
        forall s :: s in r.node.specifiers ==> FirstMatch(rules, s, init.node.source).None?
  {
    CorrectedDropsMatched(init, rules, opts, |init.node.specifiers|);
    assert init.node.specifiers[..|init.node.specifiers|] == init.node.specifiers;
  }
}
