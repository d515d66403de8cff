/**
 * A placeholder element for a partially imported dotted module name: after
 * `import a.b.c`, the name `a` in the file stands for the module placeholder
 * with prefix `a`, and looking up `b` in it yields the placeholder with
 * prefix `a.b`, and so on, until the prefix reaches a complete imported name,
 * which is then resolved.
 *
 * Host concepts are reduced to values:
 *  - a qualified name is its sequence of components: appending a component
 *    is concatenation, "matches the prefix p" means "p is a prefix of the
 *    components", "matches name" means "consists of the single component
 *    name", and the text form joins the components with '.';
 *  - an import element is its identity and its (nullable) imported name;
 *  - a container is the list of the stub-based scopes that enclose the
 *    lookup (the container itself first, then its stub parents outward; empty
 *    when the container is not stub-based) and its containing file;
 *  - import resolution is an oracle passed as a function parameter.
 */
module PyImportedModule {
  import opened Wrappers

  type QName = seq<string>

  datatype ImportElement = ImportElement(id: nat, importedQName: Option<QName>)

  /** An `import a.b, c.d` statement. */
  datatype ImportStatement = ImportStatement(elements: seq<ImportElement>)

  /** A `from s import x, y` statement; `sourceQName` is null for a relative `from . import x`. */
  datatype FromImportStatement = FromImportStatement(sourceQName: Option<QName>, elements: seq<ImportElement>)

  /** The import statements that are direct stub children of one container. */
  type Scope = seq<ImportStatement>

  datatype PyFile = PyFile(imports: Scope, fromImports: seq<FromImportStatement>,
                           transitiveTargets: seq<ImportElement>)

  datatype Container = Container(stubChain: seq<Scope>, file: PyFile)

  /** The placeholder element itself: its container and the prefix imported so far. */
  datatype ImportedModule = ImportedModule(container: Container, prefix: QName)

  /** What a lookup yields: a resolved element of the host, or a module placeholder. */
  datatype Element<R> = Resolved(target: R) | Placeholder(imported: ImportedModule)

  /** The outcome of an operation the element does not support. */
  datatype Outcome<T> = Success(value: T) | Unsupported

  // ---------------------------------------------------------------------------
  // Qualified names
  // ---------------------------------------------------------------------------

  predicate MatchesPrefix(q: QName, prefix: QName) {
    |prefix| <= |q| && q[..|prefix|] == prefix
  }

  predicate Matches(q: QName, name: string) {
    q == [name]
  }

  /** The element's name is non-null and starts with `prefix`. */
  predicate HasPrefix(e: ImportElement, prefix: QName) {
    e.importedQName.Some? && MatchesPrefix(e.importedQName.value, prefix)
  }

  /** The element's name is non-null and is exactly the one component `name`. */
  predicate IsNamed(e: ImportElement, name: string) {
    e.importedQName.Some? && Matches(e.importedQName.value, name)
  }

  /** The text form of a qualified name: its components joined with '.'. */
  function Join(q: QName): (s: string)
    ensures |q| == 1 ==> s == q[0]
  {
    if q == [] then "" else if |q| == 1 then q[0] else q[0] + "." + Join(q[1..])
  }

  // ---------------------------------------------------------------------------
  // Searching a list of import elements
  // ---------------------------------------------------------------------------

  /** The first element of `imports` whose name starts with `prefix`. */
  function FirstMatch(imports: seq<ImportElement>, prefix: QName): Option<ImportElement>
  {
    if imports == [] then None
    else if HasPrefix(imports[0], prefix) then Some(imports[0])
    else FirstMatch(imports[1..], prefix)
  }

  /** Scans the list in order and returns the first element whose name starts with `prefix`. */
  method FindMatchingImportElementInList(prefix: QName, imports: seq<ImportElement>)
    returns (r: Option<ImportElement>)
    ensures r == FirstMatch(imports, prefix)
  {
    for k := 0 to |imports|
      invariant FirstMatch(imports, prefix) == FirstMatch(imports[k..], prefix)
    {
      assert imports[k..][1..] == imports[k + 1..];
      var qName := imports[k].importedQName;
      if qName.Some? && MatchesPrefix(qName.value, prefix) {
        return Some(imports[k]);
      }
    }
    assert imports[|imports|..] == [];
    return None;
  }

  /** `FirstMatch` is the match at the least index; there is none exactly when no element matches. */
  lemma {:induction false} FirstMatchSpec(imports: seq<ImportElement>, prefix: QName)
    ensures FirstMatch(imports, prefix).None? <==> forall k :: 0 <= k < |imports| ==> !HasPrefix(imports[k], prefix)
    ensures FirstMatch(imports, prefix).Some? ==>
      exists k :: 0 <= k < |imports| && imports[k] == FirstMatch(imports, prefix).value &&
        HasPrefix(imports[k], prefix) && forall l :: 0 <= l < k ==> !HasPrefix(imports[l], prefix)
  {
    if imports != [] && !HasPrefix(imports[0], prefix) {
      var rest := imports[1..];
      FirstMatchSpec(rest, prefix);
      assert forall k :: 1 <= k < |imports| ==> imports[k] == rest[k - 1];
      if FirstMatch(rest, prefix).Some? {
        var k :| 0 <= k < |rest| && rest[k] == FirstMatch(rest, prefix).value &&
          HasPrefix(rest[k], prefix) && forall l :: 0 <= l < k ==> !HasPrefix(rest[l], prefix);
        assert imports[k + 1] == rest[k];
        assert forall l :: 0 <= l < k + 1 ==> !HasPrefix(imports[l], prefix) by {
          forall l | 0 <= l < k + 1
            ensures !HasPrefix(imports[l], prefix)
          {
            if l > 0 {
              assert imports[l] == rest[l - 1];
            }
          }
        }
      }
    }
  }

  /** Searching a concatenation finds a match in the first part before any in the second. */
  lemma {:induction false} FirstMatchAppend(xs: seq<ImportElement>, ys: seq<ImportElement>, prefix: QName)
    ensures FirstMatch(xs + ys, prefix) ==
      if FirstMatch(xs, prefix).Some? then FirstMatch(xs, prefix) else FirstMatch(ys, prefix)
  {
    if xs == [] {
      assert xs + ys == ys;
    } else {
      assert (xs + ys)[0] == xs[0];
      assert (xs + ys)[1..] == xs[1..] + ys;
      FirstMatchAppend(xs[1..], ys, prefix);
    }
  }

  // ---------------------------------------------------------------------------
  // Collecting the import targets of the enclosing scopes
  // ---------------------------------------------------------------------------

  /** The import elements of a scope, statement by statement, in order. */
  function StatementElements(statements: Scope): seq<ImportElement>
  {
    if statements == [] then []
    else StatementElements(statements[..|statements| - 1]) + statements[|statements| - 1].elements
  }

  /** The import elements of a chain of scopes, scope by scope, in order. */
  function ScopesElements(chain: seq<Scope>): seq<ImportElement>
  {
    if chain == [] then []
    else ScopesElements(chain[..|chain| - 1]) + StatementElements(chain[|chain| - 1])
  }

  /** The local import targets: those of the enclosing stub-based scopes, innermost first, then the file's. */
  function ImportTargets(c: Container): seq<ImportElement>
  {
    ScopesElements(c.stubChain) + StatementElements(c.file.imports)
  }

  /** Appends the elements of every import statement of one scope to `result`. */
  method CollectImports(result: seq<ImportElement>, statements: Scope)
    returns (collected: seq<ImportElement>)
    ensures collected == result + StatementElements(statements)
  {
    collected := result;
    for k := 0 to |statements|
      invariant collected == result + StatementElements(statements[..k])
    {
      assert statements[..k + 1][..k] == statements[..k];
      collected := collected + statements[k].elements;
    }
    assert statements[..|statements|] == statements;
  }

  /** Walks the stub-based scopes outward, collecting their imports, and finishes with the file's. */
  method CollectImportTargets(c: Container) returns (result: seq<ImportElement>)
    ensures result == ImportTargets(c)
  {
    result := [];
    var k := 0;
    while k < |c.stubChain|
      invariant k <= |c.stubChain|
      invariant result == ScopesElements(c.stubChain[..k])
    {
      assert c.stubChain[..k + 1][..k] == c.stubChain[..k];
      result := CollectImports(result, c.stubChain[k]);
      k := k + 1;
    }
    assert c.stubChain[..k] == c.stubChain;
    result := CollectImports(result, c.file.imports);
  }

  lemma {:induction false} ScopesElementsCons(chain: seq<Scope>)
    requires chain != []
    ensures ScopesElements(chain) == StatementElements(chain[0]) + ScopesElements(chain[1..])
    decreases |chain|
  {
    if |chain| == 1 {
      assert chain[..0] == [];
      assert chain[1..] == [];
    } else {
      var front, tail, last := chain[..|chain| - 1], chain[1..], chain[|chain| - 1];
      ScopesElementsCons(front);
      assert front[0] == chain[0];
      assert front[1..] == tail[..|tail| - 1];
      assert tail[|tail| - 1] == last;
      calc {
        ScopesElements(chain);
        ScopesElements(front) + StatementElements(last);
        (StatementElements(chain[0]) + ScopesElements(front[1..])) + StatementElements(last);
        StatementElements(chain[0]) + (ScopesElements(tail[..|tail| - 1]) + StatementElements(tail[|tail| - 1]));
        StatementElements(chain[0]) + ScopesElements(tail);
      }
    }
  }

  /**
   * The import search tries the scopes in order: the innermost scope with a
   * match decides, and the file's own imports are tried only after every
   * stub-based scope.
   */
  lemma TargetsSearchOrder(c: Container, prefix: QName)
    ensures FirstMatch(ImportTargets(c), prefix) ==
      (if FirstMatch(ScopesElements(c.stubChain), prefix).Some? then FirstMatch(ScopesElements(c.stubChain), prefix)
       else FirstMatch(StatementElements(c.file.imports), prefix))
    ensures c.stubChain != [] ==>
      (FirstMatch(ScopesElements(c.stubChain), prefix) ==
         if FirstMatch(StatementElements(c.stubChain[0]), prefix).Some? then FirstMatch(StatementElements(c.stubChain[0]), prefix)
         else FirstMatch(ScopesElements(c.stubChain[1..]), prefix))
  {
    FirstMatchAppend(ScopesElements(c.stubChain), StatementElements(c.file.imports), prefix);
    if c.stubChain != [] {
      ScopesElementsCons(c.stubChain);
      FirstMatchAppend(StatementElements(c.stubChain[0]), ScopesElements(c.stubChain[1..]), prefix);
    }
  }

  // ---------------------------------------------------------------------------
  // The import search with its fallback
  // ---------------------------------------------------------------------------

  /** The first local target starting with `prefix`, or else the first such transitive target of the file. */
  function MatchingImportElement(c: Container, prefix: QName): (r: Option<ImportElement>)
    ensures r.Some? ==> HasPrefix(r.value, prefix)
    ensures r.Some? ==> r.value in ImportTargets(c) || r.value in c.file.transitiveTargets
  {
    FirstMatchSpec(ImportTargets(c), prefix);
    FirstMatchSpec(c.file.transitiveTargets, prefix);
    var local := FirstMatch(ImportTargets(c), prefix);
    if local.Some? then local else FirstMatch(c.file.transitiveTargets, prefix)
  }

  method FindMatchingImportElement(c: Container, prefix: QName) returns (result: Option<ImportElement>)
    ensures result == MatchingImportElement(c, prefix)
  {
    var targets := CollectImportTargets(c);
    result := FindMatchingImportElementInList(prefix, targets);
    if result.None? {
      result := FindMatchingImportElementInList(prefix, c.file.transitiveTargets);
    }
  }

  /** No element of the local or transitive targets has a name starting with `prefix`. */
  predicate NoImportMatch(c: Container, prefix: QName) {
    (forall e :: e in ImportTargets(c) ==> !HasPrefix(e, prefix)) &&
    (forall e :: e in c.file.transitiveTargets ==> !HasPrefix(e, prefix))
  }

  /** The import search fails exactly when no local or transitive target starts with the prefix. */
  lemma MatchingImportElementNone(c: Container, prefix: QName)
    ensures MatchingImportElement(c, prefix).None? <==> NoImportMatch(c, prefix)
  {
    FirstMatchSpec(ImportTargets(c), prefix);
    FirstMatchSpec(c.file.transitiveTargets, prefix);
  }

  // ---------------------------------------------------------------------------
  // The `from ... import` search
  // ---------------------------------------------------------------------------

  /** The first element of `elements` whose name is exactly `name`. */
  function FirstNamed(elements: seq<ImportElement>, name: string): Option<ImportElement>
  {
    if elements == [] then None
    else if IsNamed(elements[0], name) then Some(elements[0])
    else FirstNamed(elements[1..], name)
  }

  /**
   * In the first `from` statement whose source is exactly `prefix` and that
   * imports `name`, the element importing it.
   */
  function FirstFromImport(fromImports: seq<FromImportStatement>, prefix: QName, name: string): Option<ImportElement>
  {
    if fromImports == [] then None
    else if fromImports[0].sourceQName == Some(prefix) && FirstNamed(fromImports[0].elements, name).Some? then
      FirstNamed(fromImports[0].elements, name)
    else FirstFromImport(fromImports[1..], prefix, name)
  }

  method FindMatchingFromImport(fromImports: seq<FromImportStatement>, prefix: QName, name: string)
    returns (r: Option<ImportElement>)
    ensures r == FirstFromImport(fromImports, prefix, name)
  {
    for s := 0 to |fromImports|
      invariant FirstFromImport(fromImports, prefix, name) == FirstFromImport(fromImports[s..], prefix, name)
    {
      assert fromImports[s..][1..] == fromImports[s + 1..];
      var qName := fromImports[s].sourceQName;
      if Some(prefix) == qName {
        var importElements := fromImports[s].elements;
        for k := 0 to |importElements|
          invariant FirstNamed(importElements, name) == FirstNamed(importElements[k..], name)
        {
          assert importElements[k..][1..] == importElements[k + 1..];
          var importedName := importElements[k].importedQName;
          if importedName.Some? && Matches(importedName.value, name) {
            return Some(importElements[k]);
          }
        }
        assert importElements[|importElements|..] == [];
      }
    }
    assert fromImports[|fromImports|..] == [];
    return None;
  }

  lemma {:induction false} FirstNamedSpec(elements: seq<ImportElement>, name: string)
    ensures FirstNamed(elements, name).Some? ==>
      FirstNamed(elements, name).value in elements && IsNamed(FirstNamed(elements, name).value, name)
    ensures FirstNamed(elements, name).Some? ==>
      exists k :: 0 <= k < |elements| && elements[k] == FirstNamed(elements, name).value &&
        forall l :: 0 <= l < k ==> !IsNamed(elements[l], name)
    ensures FirstNamed(elements, name).None? <==> forall e :: e in elements ==> !IsNamed(e, name)
  {
    if elements != [] {
      var rest := elements[1..];
      FirstNamedSpec(rest, name);
      assert elements == [elements[0]] + rest;
      if !IsNamed(elements[0], name) && FirstNamed(rest, name).Some? {
        var k :| 0 <= k < |rest| && rest[k] == FirstNamed(rest, name).value &&
          forall l :: 0 <= l < k ==> !IsNamed(rest[l], name);
        assert elements[k + 1] == rest[k];
        assert forall l :: 1 <= l < k + 1 ==> elements[l] == rest[l - 1];
      }
    }
  }

  /**
   * The `from` search looks only at statements whose source is the given
   * prefix, returns the first element importing exactly `name` from the
   * first such statement that has one, and fails only when there is no such
   * element.
   */
  lemma {:induction false} FirstFromImportSpec(fromImports: seq<FromImportStatement>, prefix: QName, name: string)
    ensures FirstFromImport(fromImports, prefix, name).Some? ==>
      (exists s :: 0 <= s < |fromImports| && fromImports[s].sourceQName == Some(prefix) &&
         FirstFromImport(fromImports, prefix, name).value in fromImports[s].elements &&
         IsNamed(FirstFromImport(fromImports, prefix, name).value, name) &&
         FirstNamed(fromImports[s].elements, name) == FirstFromImport(fromImports, prefix, name) &&
         forall t :: 0 <= t < s ==>
           fromImports[t].sourceQName != Some(prefix) || FirstNamed(fromImports[t].elements, name).None?)
    ensures FirstFromImport(fromImports, prefix, name).None? <==>
      (forall s, e ::
         (0 <= s < |fromImports| && fromImports[s].sourceQName == Some(prefix) && e in fromImports[s].elements)
         ==> !IsNamed(e, name))
  {
    if fromImports != [] {
      var rest := fromImports[1..];
      FirstNamedSpec(fromImports[0].elements, name);
      FirstFromImportSpec(rest, prefix, name);
      assert forall s :: 1 <= s < |fromImports| ==> fromImports[s] == rest[s - 1];
      if FirstFromImport(rest, prefix, name).Some? && FirstFromImport(fromImports, prefix, name) == FirstFromImport(rest, prefix, name) {
        var s :| 0 <= s < |rest| && rest[s].sourceQName == Some(prefix) &&
          FirstFromImport(rest, prefix, name).value in rest[s].elements &&
          IsNamed(FirstFromImport(rest, prefix, name).value, name) &&
          FirstNamed(rest[s].elements, name) == FirstFromImport(rest, prefix, name) &&
          forall t :: 0 <= t < s ==>
            rest[t].sourceQName != Some(prefix) || FirstNamed(rest[t].elements, name).None?;
        assert fromImports[s + 1] == rest[s];
      }
      if FirstFromImport(fromImports, prefix, name).None? {
        forall s, e | 0 <= s < |fromImports| && fromImports[s].sourceQName == Some(prefix) && e in fromImports[s].elements
          ensures !IsNamed(e, name)
        {
          if s > 0 {
            assert fromImports[s] == rest[s - 1];
          }
        }
      }
    }
  }

  // ---------------------------------------------------------------------------
  // Looking up one more component
  // ---------------------------------------------------------------------------

  /** A resolution result as a lookup result: null stays null. */
  function Lift<R>(target: Option<R>): (r: Option<Element<R>>)
    ensures r.Some? <==> target.Some?
    ensures r.Some? ==> r.value == Resolved(target.value)
  {
    match target
    case Some(t) => Some(Resolved(t))
    case None => None
  }

  /**
   * The element named `name` inside the placeholder `m`. `resolve(e, q)` is
   * the resolution of the import element `e` up to the name `q` (with a
   * package directory turned into its `__init__` file), and `resolveFrom(e)`
   * the resolution of a `from` import element; either may be null.
   */
  function ElementNamed<R>(m: ImportedModule, name: string,
                           resolve: (ImportElement, QName) -> Option<R>,
                           resolveFrom: ImportElement -> Option<R>): (r: Option<Element<R>>)
    ensures r.Some? && r.value.Placeholder? ==>
      r.value.imported == ImportedModule(m.container, m.prefix + [name]) &&
      MatchingImportElement(m.container, m.prefix + [name]).Some?
  {
    var prefix := m.prefix + [name];
    match MatchingImportElement(m.container, prefix)
    case Some(importElement) =>
      var qName := importElement.importedQName;
      if qName.Some? && |qName.value| == |prefix| then Lift(resolve(importElement, prefix))
      else Some(Placeholder(ImportedModule(m.container, prefix)))
    case None =>
      match FirstFromImport(m.container.file.fromImports, m.prefix, name)
      case Some(fromImportElement) => Lift(resolveFrom(fromImportElement))
      case None => None
  }

  /** `getElementNamed` as the host runs it, with the searches as loops. */
  method GetElementNamed<R>(m: ImportedModule, name: string,
                            resolve: (ImportElement, QName) -> Option<R>,
                            resolveFrom: ImportElement -> Option<R>)
    returns (r: Option<Element<R>>)
    ensures r == ElementNamed(m, name, resolve, resolveFrom)
  {
    var prefix := m.prefix + [name];
    var importElement := FindMatchingImportElement(m.container, prefix);
    if importElement.Some? {
      var qName := importElement.value.importedQName;
      if qName.Some? && |qName.value| == |prefix| {
        var target := resolve(importElement.value, prefix);
        return Lift(target);
      }
      return Some(Placeholder(ImportedModule(m.container, prefix)));
    }
    var fromImportElement := FindMatchingFromImport(m.container.file.fromImports, m.prefix, name);
    if fromImportElement.Some? {
      var target := resolveFrom(fromImportElement.value);
      return Lift(target);
    }
    return None;
  }

  /**
   * When the first matching import names exactly `prefix.name`, the lookup is
   * that import resolved; when its name is longer, the lookup is a deeper
   * placeholder.
   */
  lemma ExactImportResolves<R>(m: ImportedModule, name: string,
                               resolve: (ImportElement, QName) -> Option<R>,
                               resolveFrom: ImportElement -> Option<R>)
    requires MatchingImportElement(m.container, m.prefix + [name]).Some?
    ensures var e := MatchingImportElement(m.container, m.prefix + [name]).value;
      var r := ElementNamed(m, name, resolve, resolveFrom);
      (e.importedQName == Some(m.prefix + [name]) ==>
         r == Lift(resolve(e, m.prefix + [name]))) &&
      (e.importedQName != Some(m.prefix + [name]) ==>
         r == Some(Placeholder(ImportedModule(m.container, m.prefix + [name]))))
  {
    var prefix := m.prefix + [name];
    var e := MatchingImportElement(m.container, prefix).value;
    assert e.importedQName.value[..|prefix|] == prefix;
    if |e.importedQName.value| == |prefix| {
      assert e.importedQName.value == e.importedQName.value[..|prefix|];
    }
  }

  /**
   * A matching `import` takes priority: the file's `from` statements and the
   * resolution of `from` elements play no part in the lookup (only the
   * container a placeholder carries still holds them).
   */
  lemma ImportBeforeFromImport<R>(m: ImportedModule, name: string, fromImports: seq<FromImportStatement>,
                                  resolve: (ImportElement, QName) -> Option<R>,
                                  resolveFrom: ImportElement -> Option<R>,
                                  otherResolveFrom: ImportElement -> Option<R>)
    requires MatchingImportElement(m.container, m.prefix + [name]).Some?
    ensures var file := m.container.file;
      var other := ImportedModule(Container(m.container.stubChain, PyFile(file.imports, fromImports, file.transitiveTargets)), m.prefix);
      var a, b := ElementNamed(m, name, resolve, resolveFrom), ElementNamed(other, name, resolve, otherResolveFrom);
      a.Some? == b.Some? &&
      (a.Some? ==> a.value.Resolved? == b.value.Resolved? && (a.value.Resolved? ==> a.value.target == b.value.target))
  {
    var file := m.container.file;
    var other := ImportedModule(Container(m.container.stubChain, PyFile(file.imports, fromImports, file.transitiveTargets)), m.prefix);
    assert ImportTargets(other.container) == ImportTargets(m.container);
  }

  /**
   * The lookup is null only when neither search finds an element, or when the
   * element found resolves to null.
   */
  lemma NullLookup<R>(m: ImportedModule, name: string,
                      resolve: (ImportElement, QName) -> Option<R>,
                      resolveFrom: ImportElement -> Option<R>)
    requires ElementNamed(m, name, resolve, resolveFrom).None?
    ensures
      (NoImportMatch(m.container, m.prefix + [name]) &&
       forall s, e ::
         (0 <= s < |m.container.file.fromImports| && m.container.file.fromImports[s].sourceQName == Some(m.prefix) &&
          e in m.container.file.fromImports[s].elements)
         ==> !IsNamed(e, name)) ||
      (exists e :: MatchingImportElement(m.container, m.prefix + [name]) == Some(e) && resolve(e, m.prefix + [name]).None?) ||
      (exists e :: FirstFromImport(m.container.file.fromImports, m.prefix, name) == Some(e) && resolveFrom(e).None?)
  {
    var prefix := m.prefix + [name];
    MatchingImportElementNone(m.container, prefix);
    FirstFromImportSpec(m.container.file.fromImports, m.prefix, name);
    var found := MatchingImportElement(m.container, prefix);
    if found.Some? {
      assert resolve(found.value, prefix).None?;
    } else if FirstFromImport(m.container.file.fromImports, m.prefix, name).Some? {
      assert resolveFrom(FirstFromImport(m.container.file.fromImports, m.prefix, name).value).None?;
    }
  }

  /**
   * When no `import` matches, the lookup falls back to the `from` statements:
   * it is the resolution of the element the `from` search finds (never a
   * placeholder), and null when no `from` statement with the placeholder's
   * prefix as source imports `name`.
   */
  lemma FromImportLookup<R>(m: ImportedModule, name: string,
                            resolve: (ImportElement, QName) -> Option<R>,
                            resolveFrom: ImportElement -> Option<R>)
    requires MatchingImportElement(m.container, m.prefix + [name]).None?
    ensures ElementNamed(m, name, resolve, resolveFrom).Some? ==> ElementNamed(m, name, resolve, resolveFrom).value.Resolved?
    ensures FirstFromImport(m.container.file.fromImports, m.prefix, name).Some? ==>
      ElementNamed(m, name, resolve, resolveFrom) == Lift(resolveFrom(FirstFromImport(m.container.file.fromImports, m.prefix, name).value))
    ensures (forall s, e ::
               (0 <= s < |m.container.file.fromImports| && m.container.file.fromImports[s].sourceQName == Some(m.prefix) &&
                e in m.container.file.fromImports[s].elements)
               ==> !IsNamed(e, name)) ==>
      ElementNamed(m, name, resolve, resolveFrom).None?
  {
    FirstFromImportSpec(m.container.file.fromImports, m.prefix, name);
  }

  // ---------------------------------------------------------------------------
  // Navigation, copy and text
  // ---------------------------------------------------------------------------

  /**
   * The navigation target: the resolution of the first import matching the
   * placeholder's own prefix, or else the placeholder itself.
   */
  function NavigationElement<R>(m: ImportedModule, resolve: (ImportElement, QName) -> Option<R>): (r: Element<R>)
    ensures r.Placeholder? ==> r.imported == m
    ensures r.Resolved? ==> exists e :: MatchingImportElement(m.container, m.prefix) == Some(e) && resolve(e, m.prefix) == Some(r.target)
    ensures (MatchingImportElement(m.container, m.prefix).Some? &&
             resolve(MatchingImportElement(m.container, m.prefix).value, m.prefix).Some?) ==> r.Resolved?
  {
    match MatchingImportElement(m.container, m.prefix)
    case Some(importElement) =>
      (match resolve(importElement, m.prefix)
       case Some(element) => Resolved(element)
       case None => Placeholder(m))
    case None => Placeholder(m)
  }

  method GetNavigationElement<R>(m: ImportedModule, resolve: (ImportElement, QName) -> Option<R>)
    returns (r: Element<R>)
    ensures r == NavigationElement(m, resolve)
  {
    var importElement := FindMatchingImportElement(m.container, m.prefix);
    if importElement.Some? {
      var element := resolve(importElement.value, m.prefix);
      if element.Some? {
        return Resolved(element.value);
      }
    }
    return Placeholder(m);
  }

  /**
   * A placeholder handed out by a lookup navigates to the very import that
   * made the lookup produce it, resolved with the placeholder's prefix.
   */
  lemma PlaceholderNavigatesToItsImport<R>(m: ImportedModule, name: string,
                                           resolve: (ImportElement, QName) -> Option<R>,
                                           resolveFrom: ImportElement -> Option<R>)
    requires ElementNamed(m, name, resolve, resolveFrom).Some?
    requires ElementNamed(m, name, resolve, resolveFrom).value.Placeholder?
    ensures var p := ElementNamed(m, name, resolve, resolveFrom).value.imported;
      var e := MatchingImportElement(m.container, m.prefix + [name]).value;
      NavigationElement(p, resolve) ==
        if resolve(e, m.prefix + [name]).Some? then Resolved(resolve(e, m.prefix + [name]).value) else Placeholder(p)
  {
  }

  function Copy(m: ImportedModule): (r: ImportedModule)
    ensures r.container == m.container && r.prefix == m.prefix
  {
    ImportedModule(m.container, m.prefix)
  }

  /** A copy answers every lookup and navigation exactly as the original does. */
  lemma CopyBehavesAlike<R>(m: ImportedModule, name: string,
                            resolve: (ImportElement, QName) -> Option<R>,
                            resolveFrom: ImportElement -> Option<R>)
    ensures ElementNamed(Copy(m), name, resolve, resolveFrom) == ElementNamed(m, name, resolve, resolveFrom)
    ensures NavigationElement(Copy(m), resolve) == NavigationElement(m, resolve)
  {
  }

  function Text(m: ImportedModule): (s: string)
    ensures |s| >= 7 && s[..7] == "import "
  {
    "import " + Join(m.prefix)
  }

  function ToString(m: ImportedModule): (s: string)
    ensures |s| >= 17 && s[..17] == "PyImportedModule:"
  {
    "PyImportedModule:" + Join(m.prefix)
  }

  /** Listing the names the placeholder defines is not supported. */
  function IterateNames(m: ImportedModule): (r: Outcome<seq<Element<ImportElement>>>)
    ensures r.Unsupported?
  {
    Unsupported
  }

  // ---------------------------------------------------------------------------
  // The text form determines the prefix
  // ---------------------------------------------------------------------------

  /** A name whose components are free of '.', with at least one component. */
  predicate DotFree(q: QName) {
    |q| > 0 && forall k :: 0 <= k < |q| ==> '.' !in q[k]
  }

  /** The position of the first '.' in `s`. */
  function FirstDot(s: string): (i: nat)
    requires '.' in s
    ensures i < |s| && s[i] == '.' && '.' !in s[..i]
  {
    if s[0] == '.' then 0
    else
      assert '.' in s[1..] by {
        var k :| 0 <= k < |s| && s[k] == '.';
        assert s[1..][k - 1] == '.';
      }
      var i := 1 + FirstDot(s[1..]);
      assert s[..i] == [s[0]] + s[1..][..i - 1];
      i
  }

  /** Splits a string at every '.'. */
  function Split(s: string): seq<string>
    decreases |s|
  {
    if '.' in s then
      var i := FirstDot(s);
      [s[..i]] + Split(s[i + 1..])
    else [s]
  }

  lemma {:induction false} SplitJoin(q: QName)
    requires DotFree(q)
    ensures Split(Join(q)) == q
    decreases |q|
  {
    if |q| > 1 {
      var rest := Join(q[1..]);
      var s := q[0] + "." + rest;
      assert Join(q) == s;
      assert s[|q[0]|] == '.';
      var i := FirstDot(s);
      assert s[..i] == q[0];
      assert s[i + 1..] == rest;
      assert DotFree(q[1..]) by {
        forall k | 0 <= k < |q[1..]|
          ensures '.' !in q[1..][k]
        {
          assert q[1..][k] == q[k + 1];
        }
      }
      SplitJoin(q[1..]);
    }
  }

  /** Placeholders whose names are dot-free have the same text only when they have the same prefix. */
  lemma TextDeterminesPrefix(m1: ImportedModule, m2: ImportedModule)
    requires DotFree(m1.prefix) && DotFree(m2.prefix)
    requires Text(m1) == Text(m2)
    ensures m1.prefix == m2.prefix
  {
    assert Join(m1.prefix) == Text(m1)[7..];
    assert Join(m2.prefix) == Text(m2)[7..];
    SplitJoin(m1.prefix);
    SplitJoin(m2.prefix);
  }
}
