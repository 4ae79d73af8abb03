// The list of the app split rules sheet: which apps get a row, in which group and order, and its render
// (app/src/App/AppRuleRows.h, with the sheet of app/tools/app-rule-rows-tests.cpp). An app is its image path
// without regard to case, so the rows are cached by case-folded key and no list may want one of them twice.
module AppRuleRows {
  import opened Options
  import opened Lists
  import opened Reconciling
  import opened Texts

  datatype App = App(name: string, exePath: string)

  datatype Rule = Rule(imagePath: string, includeInTunnel: bool)

  function RowKey(path: string): string {
    Folded(path)
  }

  // Two paths have one key exactly when they differ in nothing but the case of letters.
  lemma RowKeyExactly(a: string, b: string)
    ensures RowKey(a) == RowKey(b) <==>
            |a| == |b| && forall i | 0 <= i < |a| :: a[i] == b[i] || IsCapitalOf(a[i], b[i]) || IsCapitalOf(b[i], a[i])
  {
    hide Lower, IsCapitalOf;
    if |a| == |b| {
      forall i | 0 <= i < |a|
        ensures RowKey(a)[i] == RowKey(b)[i] <==> a[i] == b[i] || IsCapitalOf(a[i], b[i]) || IsCapitalOf(b[i], a[i])
      {
        LowerExactly(a[i], b[i]);
      }
    }
  }

  function RuleKeys(rules: seq<Rule>): (keys: seq<string>)
    ensures |keys| == |rules|
  {
    seq(|rules|, i requires 0 <= i < |rules| => RowKey(rules[i].imagePath))
  }

  function AppKeys(apps: seq<App>): (keys: seq<string>)
    ensures |keys| == |apps|
  {
    seq(|apps|, i requires 0 <= i < |apps| => RowKey(apps[i].exePath))
  }

  // The keys in order of first appearance, those already shown left out.
  function FirstOnly(keys: seq<string>, shown: set<string>): seq<string> {
    if keys == [] then []
    else
      var last := |keys| - 1;
      var before := FirstOnly(keys[..last], shown);
      if keys[last] in shown || keys[last] in keys[..last] then before else before + [keys[last]]
  }

  lemma {:induction false} FirstOnlyIsDistinct(keys: seq<string>, shown: set<string>)
    ensures Distinct(FirstOnly(keys, shown))
    ensures forall k :: k in FirstOnly(keys, shown) <==> k in keys && k !in shown
  {
    if keys != [] {
      var last := |keys| - 1;
      FirstOnlyIsDistinct(keys[..last], shown);
      assert keys == keys[..last] + [keys[last]];
    }
  }

  predicate IsSlash(c: char) {
    c == '\\' || c == '/'
  }

  // The path's file name.
  function FileName(path: string): string {
    if path == [] then []
    else
      var last := |path| - 1;
      if IsSlash(path[last]) then [] else FileName(path[..last]) + [path[last]]
  }

  predicate HoldsSlash(text: string) {
    exists i | 0 <= i < |text| :: IsSlash(text[i])
  }

  // It is the longest end of the path without a slash.
  lemma {:induction false} FileNameIsLongest(path: string) returns (folder: string)
    ensures path == folder + FileName(path) && !HoldsSlash(FileName(path))
    ensures folder == "" || IsSlash(folder[|folder| - 1])
  {
    if path == [] {
      folder := [];
    } else {
      var last := |path| - 1;
      var front, c := path[..last], path[last];
      assert path == front + [c];
      if IsSlash(c) {
        folder := path;
      } else {
        folder := FileNameIsLongest(front);
        var name := FileName(front);
        assert FileName(path) == name + [c] && folder + name + [c] == folder + (name + [c]);
        forall i | 0 <= i < |name + [c]| ensures !IsSlash((name + [c])[i]) {
          assert i < |name| ==> (name + [c])[i] == name[i];
        }
      }
    }
  }

  // The installed app a key names: the last enumerated one.
  function InstalledAs(installed: seq<App>, key: string): Option<App> {
    if installed == [] then None
    else
      var last := |installed| - 1;
      if RowKey(installed[last].exePath) == key then Some(installed[last]) else InstalledAs(installed[..last], key)
  }

  ghost predicate IsLastOfKey(installed: seq<App>, key: string, i: nat) {
    && i < |installed| && RowKey(installed[i].exePath) == key
    && forall j | i < j < |installed| :: RowKey(installed[j].exePath) != key
  }

  // It is the last of the installed apps with the key.
  lemma {:induction false} InstalledAsLast(installed: seq<App>, key: string, app: App)
    ensures InstalledAs(installed, key) == Some(app) <==>
            exists i: nat :: IsLastOfKey(installed, key, i) && installed[i] == app
  {
    hide RowKey;
    if installed != [] {
      var last: nat := |installed| - 1;
      var before := installed[..last];
      if RowKey(installed[last].exePath) == key {
        assert IsLastOfKey(installed, key, last);
      } else {
        InstalledAsLast(before, key, app);
      }
    }
  }

  method Index(installed: seq<App>) returns (byKey: map<string, App>)
    ensures forall key :: InstalledAs(installed, key) == if key in byKey then Some(byKey[key]) else None
  {
    byKey := map[];
    for i := 0 to |installed|
      invariant forall key :: InstalledAs(installed[..i], key) == if key in byKey then Some(byKey[key]) else None
    {
      assert installed[..i + 1][..i] == installed[..i];
      byKey := byKey[RowKey(installed[i].exePath) := installed[i]];
    }
    assert installed[..|installed|] == installed;
  }

  // The app a rule names: as installed, or else by the path the first rule of that key spells and its file name.
  function NamedBy(rules: seq<Rule>, installed: seq<App>, key: string): App
    requires key in RuleKeys(rules)
  {
    var path := rules[IndexOf(RuleKeys(rules), key)].imagePath;
    InstalledAs(installed, key).GetOr(App(FileName(path), path))
  }

  lemma NamedByHasKey(rules: seq<Rule>, installed: seq<App>, key: string)
    requires key in RuleKeys(rules)
    ensures RowKey(NamedBy(rules, installed, key).exePath) == key
  {
    InstalledAsHasKey(installed, key);
  }

  predicate IsNamed(rules: seq<Rule>, installed: seq<App>, app: App) {
    var key := RowKey(app.exePath);
    key in RuleKeys(rules) && app == NamedBy(rules, installed, key)
  }

  // The app is the first one enumerated of its key.
  predicate IsFirst(installed: seq<App>, app: App) {
    var keys, key := AppKeys(installed), RowKey(app.exePath);
    key in keys && app == installed[IndexOf(keys, key)]
  }

  // One row for each app a rule names, in rule order.
  method RuledApps(rules: seq<Rule>, installed: seq<App>) returns (ruled: seq<App>)
    ensures AppKeys(ruled) == FirstOnly(RuleKeys(rules), {})
    ensures forall app | app in ruled :: IsNamed(rules, installed, app)
  {
    assert FirstOnly([], {}) == [];
    hide RowKey, FirstOnly;
    var byKey := Index(installed);
    var shown: set<string> := {};
    ruled := [];
    ghost var keys := RuleKeys(rules);
    for i := 0 to |rules|
      invariant forall k :: k in shown <==> k in keys[..i]
      invariant AppKeys(ruled) == FirstOnly(keys[..i], {})
      invariant forall app | app in ruled :: IsNamed(rules, installed, app)
    {
      var key := RowKey(rules[i].imagePath);
      FirstOnlyNext(keys, {}, i);
      if key !in shown {
        FirstIndex(keys, key, i);
        NamedByHasKey(rules, installed, key);
        shown := shown + {key};
        var app := if key in byKey then byKey[key] else App(FileName(rules[i].imagePath), rules[i].imagePath);
        assert app == NamedBy(rules, installed, key);
        AppKeysAppend(ruled, app);
        ruled := ruled + [app];
      }
    }
    assert keys[..|rules|] == keys;
  }

  lemma AppKeysAppend(apps: seq<App>, app: App)
    ensures AppKeys(apps + [app]) == AppKeys(apps) + [RowKey(app.exePath)]
  {
  }

  lemma FirstOnlyNext(keys: seq<string>, shown: set<string>, i: nat)
    requires i < |keys|
    ensures keys[..i + 1] == keys[..i] + [keys[i]]
    ensures FirstOnly(keys[..i + 1], shown) == FirstOnly(keys[..i], shown)
                                              + if keys[i] in shown || keys[i] in keys[..i] then [] else [keys[i]]
  {
    assert keys[..i + 1][..i] == keys[..i];
  }

  lemma {:induction false} InstalledAsHasKey(installed: seq<App>, key: string)
    ensures InstalledAs(installed, key).Some? ==>
        InstalledAs(installed, key).value in installed && RowKey(InstalledAs(installed, key).value.exePath) == key
  {
    if installed != [] {
      InstalledAsHasKey(installed[..|installed| - 1], key);
    }
  }

  method NamedKeys(rules: seq<Rule>) returns (named: set<string>)
    ensures named == set key | key in RuleKeys(rules)
  {
    named := {};
    for i := 0 to |rules|
      invariant named == set key | key in RuleKeys(rules)[..i]
    {
      assert RuleKeys(rules)[..i + 1] == RuleKeys(rules)[..i] + [RowKey(rules[i].imagePath)];
      named := named + {RowKey(rules[i].imagePath)};
    }
    assert RuleKeys(rules)[..|rules|] == RuleKeys(rules);
  }

  // The installed apps no rule names, in enumeration order: the first enumerated of each key.
  method UnruledApps(rules: seq<Rule>, installed: seq<App>) returns (unruled: seq<App>)
    ensures AppKeys(unruled) == FirstOnly(AppKeys(installed), set key | key in RuleKeys(rules))
    ensures forall app | app in unruled :: IsFirst(installed, app)
  {
    hide RowKey;
    var shown := NamedKeys(rules);
    ghost var named, keys := shown, AppKeys(installed);
    assert FirstOnly([], named) == [];
    hide FirstOnly;
    unruled := [];
    for i := 0 to |installed|
      invariant forall k :: k in shown <==> k in named || k in keys[..i]
      invariant AppKeys(unruled) == FirstOnly(keys[..i], named)
      invariant forall app | app in unruled :: IsFirst(installed, app)
    {
      var key := RowKey(installed[i].exePath);
      FirstOnlyNext(keys, named, i);
      if key !in shown {
        FirstIndex(keys, key, i);
        shown := shown + {key};
        AppKeysAppend(unruled, installed[i]);
        unruled := unruled + [installed[i]];
      }
    }
    assert keys[..|installed|] == keys;
  }

  lemma DistinctTogether<T>(a: seq<T>, b: seq<T>)
    requires Distinct(a) && Distinct(b) && forall e | e in a :: e !in b
    ensures Distinct(a + b)
  {
    forall i, j | 0 <= i < j < |a + b| ensures (a + b)[i] != (a + b)[j] {
      if i < |a| <= j {
        assert a[i] in a && b[j - |a|] in b;
      }
    }
  }

  // The two groups together hold every app a rule names or the enumeration found, once.
  lemma RowsAreDistinct(rules: seq<Rule>, installed: seq<App>)
    ensures var ruled := FirstOnly(RuleKeys(rules), {});
            var unruled := FirstOnly(AppKeys(installed), set key | key in RuleKeys(rules));
            && Distinct(ruled + unruled)
            && forall k :: k in ruled + unruled <==> k in RuleKeys(rules) || k in AppKeys(installed)
  {
    var named := set key | key in RuleKeys(rules);
    FirstOnlyIsDistinct(RuleKeys(rules), {});
    FirstOnlyIsDistinct(AppKeys(installed), named);
    DistinctTogether(FirstOnly(RuleKeys(rules), {}), FirstOnly(AppKeys(installed), named));
  }

  // ---- the sheet ----

  // A panel's child; its identity is the object's.
  class Element {
    constructor () {
    }
  }

  predicate Contains(text: string, query: string) {
    exists i | 0 <= i <= |text| :: query <= text[i..]
  }

  predicate Matches(app: App, query: string) {
    query == "" || Contains(RowKey(app.name), query) || Contains(RowKey(app.exePath), query)
  }

  // A query finds an app exactly when it is a part of its name or its path, put in small letters.
  lemma MatchesExactly(app: App, query: string)
    ensures Matches(app, query) <==>
            || query == ""
            || (exists i, j | 0 <= i <= j <= |app.name| :: query == RowKey(app.name[i..j]))
            || (exists i, j | 0 <= i <= j <= |app.exePath| :: query == RowKey(app.exePath[i..j]))
  {
    ContainsExactly(app.name, query);
    ContainsExactly(app.exePath, query);
  }

  lemma ContainsExactly(text: string, query: string)
    ensures Contains(RowKey(text), query) <==> exists i, j | 0 <= i <= j <= |text| :: query == RowKey(text[i..j])
  {
    var key := RowKey(text);
    if i :| 0 <= i <= |key| && query <= key[i..] {
      assert query == RowKey(text[i..i + |query|]);
    }
    forall i, j | 0 <= i <= j <= |text| && query == RowKey(text[i..j]) ensures query <= key[i..] {
    }
  }

  // The keys of the apps the query matches.
  function Matching(apps: seq<App>, query: string): seq<string> {
    if apps == [] then []
    else
      var last := |apps| - 1;
      Matching(apps[..last], query) + if Matches(apps[last], query) then [RowKey(apps[last].exePath)] else []
  }

  lemma {:induction false} MatchingIsDistinct(apps: seq<App>, query: string)
    requires Distinct(AppKeys(apps))
    ensures Distinct(Matching(apps, query)) && forall k | k in Matching(apps, query) :: k in AppKeys(apps)
  {
    if apps != [] {
      var last := |apps| - 1;
      var before := AppKeys(apps[..last]);
      assert AppKeys(apps) == before + [RowKey(apps[last].exePath)];
      assert forall i | 0 <= i < last :: before[i] == AppKeys(apps)[i];
      assert RowKey(apps[last].exePath) !in before by {
        assert AppKeys(apps)[last] == RowKey(apps[last].exePath);
      }
      MatchingIsDistinct(apps[..last], query);
    }
  }

  // The rows of a list of keys.
  function RowsOf(rows: map<string, Element>, keys: seq<string>): (r: seq<Element>)
    requires forall k | k in keys :: k in rows
    ensures |r| == |keys|
  {
    seq(|keys|, i requires 0 <= i < |keys| => rows[keys[i]])
  }

  ghost predicate OneRowEach(rows: map<string, Element>) {
    forall k, l | k in rows && l in rows && k != l :: rows[k] != rows[l]
  }

  lemma RowsOfKeys(rows: map<string, Element>, a: seq<string>, b: seq<string>)
    requires OneRowEach(rows) && Distinct(a) && Distinct(b) && forall k | k in a :: k !in b
    requires forall k | k in a || k in b :: k in rows
    ensures Distinct(RowsOf(rows, a)) && Distinct(RowsOf(rows, b))
    ensures forall row | row in RowsOf(rows, a) :: row !in RowsOf(rows, b)
  {
    forall row | row in RowsOf(rows, a) ensures row !in RowsOf(rows, b) {
      var i :| 0 <= i < |a| && row == rows[a[i]];
      assert a[i] in a;
    }
  }

  // The two groups show different apps, each once.
  lemma GroupsAreApart(ruled: seq<App>, unruled: seq<App>, query: string)
    requires Distinct(AppKeys(ruled) + AppKeys(unruled))
    ensures Distinct(Matching(ruled, query)) && Distinct(Matching(unruled, query))
    ensures forall k | k in Matching(ruled, query) :: k !in Matching(unruled, query)
  {
    var a, b := AppKeys(ruled), AppKeys(unruled);
    assert forall i | 0 <= i < |a| :: a[i] == (a + b)[i];
    assert forall i | 0 <= i < |b| :: b[i] == (a + b)[|a| + i];
    MatchingIsDistinct(ruled, query);
    MatchingIsDistinct(unruled, query);
  }

  class Sheet {
    const installed: seq<App>
    const configuredHeader: Element
    const appsHeader: Element
    const searchEmptyLine: Element
    const noAppsLine: Element
    const children: Children<Element>
    var rows: map<string, Element>

    function Lines(): seq<Element> {
      [configuredHeader, appsHeader, searchEmptyLine, noAppsLine]
    }

    // One row for each key, no row a header or a line, and no child twice.
    ghost predicate Valid()
      reads this, children
    {
      && Distinct(Lines()) && Distinct(children.items)
      && OneRowEach(rows)
      && (forall k | k in rows :: rows[k] !in Lines())
    }

    constructor (installed: seq<App>)
      ensures Valid() && this.installed == installed && fresh(children)
    {
      this.installed := installed;
      configuredHeader := new Element();
      appsHeader := new Element();
      searchEmptyLine := new Element();
      noAppsLine := new Element();
      children := new Children<Element>();
      rows := map[];
    }

    method RowFor(app: App) returns (row: Element)
      requires Valid()
      modifies this`rows
      ensures Valid() && RowKey(app.exePath) in rows && row == rows[RowKey(app.exePath)]
      ensures forall k | k in old(rows) :: k in rows && rows[k] == old(rows)[k]
    {
      var key := RowKey(app.exePath);
      if key in rows {
        return rows[key];
      }
      row := new Element();
      rows := rows[key := row];
    }

    // The rows of the apps the query matches, made where they are missing.
    method RowsFor(apps: seq<App>, query: string) returns (shown: seq<Element>)
      requires Valid()
      modifies this`rows
      ensures Valid() && forall k | k in Matching(apps, query) :: k in rows
      ensures shown == RowsOf(rows, Matching(apps, query))
      ensures forall k | k in old(rows) :: k in rows && rows[k] == old(rows)[k]
    {
      shown := [];
      for i := 0 to |apps|
        invariant Valid() && forall k | k in Matching(apps[..i], query) :: k in rows
        invariant shown == RowsOf(rows, Matching(apps[..i], query))
        invariant forall k | k in old(rows) :: k in rows && rows[k] == old(rows)[k]
      {
        assert apps[..i + 1][..i] == apps[..i];
        if Matches(apps[i], query) {
          var row := RowFor(apps[i]);
          shown := shown + [row];
        }
      }
      assert apps[..|apps|] == apps;
    }

    // The wanted list: a line when there is nothing to show, otherwise each group that has a match, under its
    // header.
    function Layout(noApps: bool, ruled: seq<Element>, unruled: seq<Element>): seq<Element> {
      if noApps then [noAppsLine]
      else if ruled == [] && unruled == [] then [searchEmptyLine]
      else (if ruled == [] then [] else [configuredHeader] + ruled)
           + (if unruled == [] then [] else [appsHeader] + unruled)
    }

    // No wanted list holds a child twice.
    lemma LayoutIsDistinct(noApps: bool, ruled: seq<Element>, unruled: seq<Element>)
      requires Distinct(Lines()) && Distinct(ruled) && Distinct(unruled) && forall row | row in ruled :: row !in unruled
      requires forall row | row in ruled || row in unruled :: row !in Lines()
      ensures Distinct(Layout(noApps, ruled, unruled))
    {
      assert Lines()[0] == configuredHeader && Lines()[1] == appsHeader;
      DistinctTogether([configuredHeader], ruled);
      DistinctTogether([appsHeader], unruled);
      DistinctTogether([configuredHeader] + ruled, [appsHeader] + unruled);
    }

    method Assemble(noApps: bool, ruled: seq<Element>, unruled: seq<Element>) returns (want: seq<Element>)
      ensures want == Layout(noApps, ruled, unruled)
    {
      if noApps {
        return [noAppsLine];
      }
      want := [];
      if ruled != [] {
        want := want + [configuredHeader] + ruled;
      }
      if unruled != [] {
        want := want + [appsHeader] + unruled;
      }
      if want == [] {
        want := [searchEmptyLine];
      }
    }

    method Want(ruled: seq<App>, unruled: seq<App>, query: string) returns (want: seq<Element>)
      requires Valid() && Distinct(AppKeys(ruled) + AppKeys(unruled))
      modifies this`rows
      ensures Valid() && Distinct(want)
      ensures forall k | k in Matching(ruled, query) || k in Matching(unruled, query) :: k in rows
      ensures want == Layout(ruled == [] && unruled == [], RowsOf(rows, Matching(ruled, query)),
                             RowsOf(rows, Matching(unruled, query)))
    {
      var ruledShown := RowsFor(ruled, query);
      var unruledShown := RowsFor(unruled, query);
      assert ruledShown == RowsOf(rows, Matching(ruled, query));
      GroupsAreApart(ruled, unruled, query);
      RowsOfKeys(rows, Matching(ruled, query), Matching(unruled, query));
      LayoutIsDistinct(ruled == [] && unruled == [], ruledShown, unruledShown);
      want := Assemble(ruled == [] && unruled == [], ruledShown, unruledShown);
    }

    // One render: whatever the rules, the installed apps and the query, and whatever earlier renders left, nothing
    // throws and the children are exactly the wanted list: a row for each app a rule names or the enumeration
    // found that the query matches, once, under its group's header.
    method Render(rules: seq<Rule>, query: string) returns (ok: bool, ghost ruled: seq<App>, ghost unruled: seq<App>)
      requires Valid()
      modifies this`rows, children
      ensures Valid() && ok
      ensures AppKeys(ruled) == FirstOnly(RuleKeys(rules), {})
      ensures AppKeys(unruled) == FirstOnly(AppKeys(installed), set key | key in RuleKeys(rules))
      ensures forall k | k in Matching(ruled, query) || k in Matching(unruled, query) :: k in rows
      ensures children.items == Layout(ruled == [] && unruled == [], RowsOf(rows, Matching(ruled, query)),
                                       RowsOf(rows, Matching(unruled, query)))
    {
      var top := RuledApps(rules, installed);
      var rest := UnruledApps(rules, installed);
      ruled, unruled := top, rest;
      RowsAreDistinct(rules, installed);
      var want := Want(top, rest, query);
      DistinctHasNoSurplus(children.items);
      ReconcilesExactly(children.items, want);
      ok := Reconcile(children, want);
    }
  }

  lemma DistinctHasNoSurplus<T>(items: seq<T>)
    requires Distinct(items)
    ensures forall e | e in items :: multiset(items)[e] <= 1
  {
    forall e | e in items ensures multiset(items)[e] <= 1 {
      DistinctCounts(items, e);
    }
  }
}
