/**
 * The "Pull Members Up" dialog of a Java class: which members may be pulled
 * into the chosen superclass or interface and which may or must become
 * abstract there, which superclass is preselected from usage statistics, what
 * confirming the dialog records, and how the initial "make abstract" flags
 * and the javadoc panel are set up.
 *
 * Host queries become values: a member carries its kind, its `static`
 * modifier and whether it has a doc comment; a superclass carries its
 * qualified name, whether it is an interface, whether its language level is 8
 * or higher, and the answers of the member storage and the signature lookup
 * for it. The base model's own problem check is a function parameter.
 */
module PullUpDialog {
  import opened Wrappers

  /** The kinds of class member; only initializers cannot own a doc comment. */
  datatype MemberKind = InnerClass(isInterface: bool) | Field | Method | Initializer

  datatype Member = Member(id: nat, kind: MemberKind, isStatic: bool, hasDocComment: bool)

  /** A row of the member table: the member, its check box and its "make abstract" flag. */
  datatype MemberInfo = MemberInfo(member: Member, checked: bool, toAbstract: bool)

  /**
   * A candidate superclass. `duplicated` holds the members whose info the
   * member storage lists as duplicated in it, `extending` the members it lists
   * as extending it, and `declaredSignatures` the methods whose signature
   * (under the superclass substitutor) the class already declares.
   */
  datatype SuperClass = SuperClass(qualifiedName: Option<string>, isInterface: bool,
                                   languageLevel8OrHigher: bool, duplicated: set<nat>,
                                   extending: set<nat>, declaredSignatures: set<nat>)

  /** What the refactoring is started with once the dialog is confirmed. */
  datatype PullUpRequest = PullUpRequest(target: SuperClass, members: seq<MemberInfo>, javaDocPolicy: int)

  /** The member model's "no problem" answer. */
  const OK: int := 0

  /** The prefix of the usage-statistics key under which chosen superclasses are recorded. */
  const PullUpStatisticsKey: string := "pull.up##"

  predicate IsDocCommentOwner(kind: MemberKind) {
    !kind.Initializer?
  }

  // ---------------------------------------------------------------------------
  // The member model
  // ---------------------------------------------------------------------------

  function IsMemberEnabled(target: Option<SuperClass>, info: MemberInfo): bool
  {
    if target.None? then true
    else
      var superClass, member := target.value, info.member;
      if member.id in superClass.duplicated then false
      else if member.id in superClass.extending then false
      else if !superClass.isInterface then true
      else match member.kind
        case InnerClass(isInterface) => true
        case Field => member.isStatic
        case Method => if member.id in superClass.declaredSignatures then false else !member.isStatic
        case Initializer => true
  }

  function IsAbstractEnabled(target: Option<SuperClass>, info: MemberInfo): bool
  {
    target.None? || !target.value.isInterface || target.value.languageLevel8OrHigher
  }

  function IsAbstractWhenDisabled(target: Option<SuperClass>, info: MemberInfo): bool
  {
    target.Some? && target.value.isInterface && info.member.kind.Method?
  }

  /** `baseCheck` is the inherited check on uses and interface dependencies. */
  function CheckForProblems(target: Option<SuperClass>, info: MemberInfo, baseCheck: MemberInfo -> int): int
  {
    if info.checked then OK
    else if target.Some? && target.value.isInterface then
      if info.member.isStatic then baseCheck(info) else OK
    else baseCheck(info)
  }

  function IsFixedAbstract(info: MemberInfo): (r: Option<bool>)
    ensures r == Some(true)
  {
    Some(true)
  }

  /** What an interface can receive: static fields, non-static methods it lacks, and any nested class or initializer. */
  predicate FitsInterface(superClass: SuperClass, member: Member) {
    (member.kind.Field? ==> member.isStatic) &&
    (member.kind.Method? ==> !member.isStatic && member.id !in superClass.declaredSignatures)
  }

  /**
   * Without a target everything is enabled; a member duplicated in or
   * extending the target is disabled; otherwise a class target takes every
   * member and an interface target exactly those that fit an interface.
   */
  lemma MemberEnabledRules(target: Option<SuperClass>, info: MemberInfo)
    ensures target.None? ==> IsMemberEnabled(target, info)
    ensures target.Some? ==>
      (IsMemberEnabled(target, info) <==>
         info.member.id !in target.value.duplicated && info.member.id !in target.value.extending &&
         (target.value.isInterface ==> FitsInterface(target.value, info.member)))
  {
  }

  /** Against an interface: nested interfaces stay enabled, fields iff static, methods iff non-static and not yet declared. */
  lemma InterfaceTargetRules(superClass: SuperClass, info: MemberInfo)
    requires superClass.isInterface
    requires info.member.id !in superClass.duplicated && info.member.id !in superClass.extending
    ensures info.member.kind == InnerClass(true) ==> IsMemberEnabled(Some(superClass), info)
    ensures info.member.kind.Field? ==> (IsMemberEnabled(Some(superClass), info) <==> info.member.isStatic)
    ensures info.member.kind.Method? && info.member.id in superClass.declaredSignatures ==> !IsMemberEnabled(Some(superClass), info)
    ensures info.member.kind.Method? && info.member.id !in superClass.declaredSignatures ==>
      (IsMemberEnabled(Some(superClass), info) <==> !info.member.isStatic)
    ensures info.member.kind.Initializer? ==> IsMemberEnabled(Some(superClass), info)
  {
  }

  /**
   * The "make abstract" box is editable unless the target is an interface
   * below language level 8; when it is not editable, exactly the methods are
   * made abstract.
   */
  lemma AbstractRules(target: Option<SuperClass>, info: MemberInfo)
    ensures !IsAbstractEnabled(target, info) ==> (IsAbstractWhenDisabled(target, info) <==> info.member.kind.Method?)
    ensures (target.None? || !target.value.isInterface) ==>
      IsAbstractEnabled(target, info) && !IsAbstractWhenDisabled(target, info)
    ensures IsAbstractEnabled(target, info) <==>
      target.None? || !target.value.isInterface || target.value.languageLevel8OrHigher
    ensures IsAbstractWhenDisabled(target, info) <==>
      target.Some? && target.value.isInterface && info.member.kind.Method?
  {
  }

  /** A method that may go into an interface is one that becomes abstract there. */
  lemma EnabledInterfaceMethodIsAbstract(superClass: SuperClass, info: MemberInfo)
    requires superClass.isInterface && info.member.kind.Method?
    requires IsMemberEnabled(Some(superClass), info)
    ensures IsAbstractWhenDisabled(Some(superClass), info)
    ensures !info.member.isStatic
  {
  }

  /**
   * The dialog never reports a problem of its own: a checked member is fine,
   * a non-static member going into an interface is fine, and everything else
   * is the inherited check's verdict.
   */
  lemma ProblemsComeFromBaseCheck(target: Option<SuperClass>, info: MemberInfo, baseCheck: MemberInfo -> int)
    ensures CheckForProblems(target, info, baseCheck) == OK || CheckForProblems(target, info, baseCheck) == baseCheck(info)
    ensures info.checked ==> CheckForProblems(target, info, baseCheck) == OK
    ensures !info.checked && target.Some? && target.value.isInterface && !info.member.isStatic ==>
      CheckForProblems(target, info, baseCheck) == OK
    ensures !info.checked && !(target.Some? && target.value.isInterface && !info.member.isStatic) ==>
      CheckForProblems(target, info, baseCheck) == baseCheck(info)
  {
  }

  // ---------------------------------------------------------------------------
  // Usage statistics
  // ---------------------------------------------------------------------------

  /** The statistics key for a class; a null qualified name is concatenated as "null". */
  function StatKey(className: Option<string>): (key: string)
    ensures |key| >= |PullUpStatisticsKey| && key[..|PullUpStatisticsKey|] == PullUpStatisticsKey
  {
    PullUpStatisticsKey + (if className.Some? then className.value else "null")
  }

  /** Different classes use different keys, unless one of them is literally named "null". */
  lemma StatKeyInjective(a: Option<string>, b: Option<string>)
    requires a != Some("null") && b != Some("null")
    requires StatKey(a) == StatKey(b)
    ensures a == b
  {
    var n := |PullUpStatisticsKey|;
    assert StatKey(a)[n..] == (if a.Some? then a.value else "null");
    assert StatKey(b)[n..] == (if b.Some? then b.value else "null");
  }

  function UseCount(counts: map<(string, string), nat>, key: string, value: string): nat
  {
    if (key, value) in counts then counts[(key, value)] else 0
  }

  function Values(values: map<string, seq<string>>, key: string): seq<string>
  {
    if key in values then values[key] else []
  }

  /** The counts after one more use of `value` under `key`. */
  function Inc(counts: map<(string, string), nat>, key: string, value: string): (r: map<(string, string), nat>)
    ensures UseCount(r, key, value) == UseCount(counts, key, value) + 1
    ensures forall k, v :: (k, v) != (key, value) ==> UseCount(r, k, v) == UseCount(counts, k, v)
  {
    counts[(key, value) := UseCount(counts, key, value) + 1]
  }

  /** The values known under each key after `value` is used under `key`: appended when new. */
  function Record(values: map<string, seq<string>>, key: string, value: string): (r: map<string, seq<string>>)
    ensures value in Values(r, key)
    ensures Values(r, key) == Values(values, key) || Values(r, key) == Values(values, key) + [value]
    ensures forall k :: k != key ==> Values(r, k) == Values(values, k)
  {
    if value in Values(values, key) then values else values[key := Values(values, key) + [value]]
  }

  /** The usage statistics: a use count per (key, value) and the values recorded under each key, in order. */
  class StatisticsStore {
    var counts: map<(string, string), nat>
    var values: map<string, seq<string>>

    constructor ()
      ensures counts == map[] && values == map[]
    {
      counts := map[];
      values := map[];
    }

    function GetUseCount(key: string, value: string): nat
      reads this
    {
      UseCount(counts, key, value)
    }

    function GetAllValues(key: string): seq<string>
      reads this
    {
      Values(values, key)
    }

    method IncUseCount(key: string, value: string)
      modifies this
      ensures counts == Inc(old(counts), key, value)
      ensures values == Record(old(values), key, value)
    {
      counts := Inc(counts, key, value);
      values := Record(values, key, value);
    }
  }

  /** The persisted refactoring settings; only the javadoc policy of pull-up is modelled. */
  class RefactoringSettings {
    var pullUpMembersJavadoc: int

    constructor (policy: int)
      ensures pullUpMembersJavadoc == policy
    {
      pullUpMembersJavadoc := policy;
    }
  }

  // ---------------------------------------------------------------------------
  // Preselection
  // ---------------------------------------------------------------------------

  /** The first candidate whose qualified name is `name`. */
  function FindCandidate(name: string, candidates: seq<SuperClass>): Option<SuperClass>
  {
    if candidates == [] then None
    else if Some(name) == candidates[0].qualifiedName then Some(candidates[0])
    else FindCandidate(name, candidates[1..])
  }

  /** The candidate named by the first recorded value that names a candidate and has a positive use count. */
  function StatisticsChoice(recorded: seq<string>, counts: map<(string, string), nat>, key: string,
                            candidates: seq<SuperClass>): Option<SuperClass>
  {
    if recorded == [] then None
    else if FindCandidate(recorded[0], candidates).Some? && UseCount(counts, key, recorded[0]) > 0 then
      FindCandidate(recorded[0], candidates)
    else StatisticsChoice(recorded[1..], counts, key, candidates)
  }

  /** The preselected superclass: the statistics' choice, else the nearest base class. */
  function Preselection(recorded: seq<string>, counts: map<(string, string), nat>, key: string,
                        candidates: seq<SuperClass>, nearestBase: Option<SuperClass>): Option<SuperClass>
  {
    match StatisticsChoice(recorded, counts, key, candidates)
    case Some(c) => Some(c)
    case None => nearestBase
  }

  method GetPreselection(store: StatisticsStore, className: Option<string>, superClasses: seq<SuperClass>,
                         nearestBase: Option<SuperClass>)
    returns (preselection: Option<SuperClass>)
    ensures preselection ==
      Preselection(store.GetAllValues(StatKey(className)), store.counts, StatKey(className), superClasses, nearestBase)
  {
    preselection := nearestBase;
    var statKey := StatKey(className);
    var recorded := store.GetAllValues(statKey);
    for k := 0 to |recorded|
      invariant preselection == nearestBase
      invariant StatisticsChoice(recorded, store.counts, statKey, superClasses) ==
        StatisticsChoice(recorded[k..], store.counts, statKey, superClasses)
    {
      assert recorded[k..][1..] == recorded[k + 1..];
      var superClassName := recorded[k];
      var superClass: Option<SuperClass> := None;
      for c := 0 to |superClasses|
        invariant superClass.None?
        invariant FindCandidate(superClassName, superClasses) == FindCandidate(superClassName, superClasses[c..])
      {
        assert superClasses[c..][1..] == superClasses[c + 1..];
        if Some(superClassName) == superClasses[c].qualifiedName {
          superClass := Some(superClasses[c]);
          break;
        }
      }
      assert superClasses[|superClasses|..] == [];
      if superClass.Some? && store.GetUseCount(statKey, superClassName) > 0 {
        preselection := superClass;
        break;
      }
    }
    assert recorded[|recorded|..] == [];
  }

  lemma {:induction false} FindCandidateSpec(name: string, candidates: seq<SuperClass>)
    ensures FindCandidate(name, candidates).Some? ==>
      FindCandidate(name, candidates).value in candidates &&
      FindCandidate(name, candidates).value.qualifiedName == Some(name)
    ensures FindCandidate(name, candidates).None? <==> forall c :: c in candidates ==> c.qualifiedName != Some(name)
  {
    if candidates != [] {
      FindCandidateSpec(name, candidates[1..]);
      assert candidates == [candidates[0]] + candidates[1..];
    }
  }

  /**
   * A statistics-driven choice is one of the candidates, named by the first
   * recorded value that both names a candidate and has a positive use count;
   * there is none exactly when no recorded value does.
   */
  lemma {:induction false} StatisticsChoiceSpec(recorded: seq<string>, counts: map<(string, string), nat>, key: string,
                                                candidates: seq<SuperClass>)
    ensures StatisticsChoice(recorded, counts, key, candidates).Some? ==>
      var c := StatisticsChoice(recorded, counts, key, candidates).value;
      c in candidates && c.qualifiedName.Some? && c.qualifiedName.value in recorded &&
      UseCount(counts, key, c.qualifiedName.value) > 0
    ensures StatisticsChoice(recorded, counts, key, candidates).Some? ==>
      exists k :: 0 <= k < |recorded| &&
        FindCandidate(recorded[k], candidates) == StatisticsChoice(recorded, counts, key, candidates) &&
        UseCount(counts, key, recorded[k]) > 0 &&
        forall l :: 0 <= l < k ==> FindCandidate(recorded[l], candidates).None? || UseCount(counts, key, recorded[l]) == 0
    ensures StatisticsChoice(recorded, counts, key, candidates).None? <==>
      forall v :: v in recorded && UseCount(counts, key, v) > 0 ==> FindCandidate(v, candidates).None?
  {
    StatisticsChoiceFirst(recorded, counts, key, candidates);
    if recorded != [] {
      FindCandidateSpec(recorded[0], candidates);
      StatisticsChoiceSpec(recorded[1..], counts, key, candidates);
      assert recorded == [recorded[0]] + recorded[1..];
    }
  }

  /** The recorded value behind a statistics-driven choice is the first one that qualifies. */
  lemma {:induction false} StatisticsChoiceFirst(recorded: seq<string>, counts: map<(string, string), nat>, key: string,
                                                 candidates: seq<SuperClass>)
    ensures StatisticsChoice(recorded, counts, key, candidates).Some? ==>
      exists k :: 0 <= k < |recorded| &&
        FindCandidate(recorded[k], candidates) == StatisticsChoice(recorded, counts, key, candidates) &&
        UseCount(counts, key, recorded[k]) > 0 &&
        forall l :: 0 <= l < k ==> FindCandidate(recorded[l], candidates).None? || UseCount(counts, key, recorded[l]) == 0
  {
    if recorded != [] && !(FindCandidate(recorded[0], candidates).Some? && UseCount(counts, key, recorded[0]) > 0) {
      var rest := recorded[1..];
      StatisticsChoiceFirst(rest, counts, key, candidates);
      if StatisticsChoice(rest, counts, key, candidates).Some? {
        var k :| 0 <= k < |rest| &&
          FindCandidate(rest[k], candidates) == StatisticsChoice(rest, counts, key, candidates) &&
          UseCount(counts, key, rest[k]) > 0 &&
          forall l :: 0 <= l < k ==> FindCandidate(rest[l], candidates).None? || UseCount(counts, key, rest[l]) == 0;
        assert recorded[k + 1] == rest[k];
        assert forall l :: 1 <= l < k + 1 ==> recorded[l] == rest[l - 1];
      }
    }
  }

  /** The preselection is the nearest base class or one of the candidates. */
  lemma PreselectionIsCandidateOrNearest(recorded: seq<string>, counts: map<(string, string), nat>, key: string,
                                         candidates: seq<SuperClass>, nearestBase: Option<SuperClass>)
    ensures var p := Preselection(recorded, counts, key, candidates, nearestBase);
      p == nearestBase || (p.Some? && p.value in candidates)
  {
    StatisticsChoiceSpec(recorded, counts, key, candidates);
  }

  // ---------------------------------------------------------------------------
  // Confirming the dialog
  // ---------------------------------------------------------------------------

  /**
   * Confirming the dialog: nothing happens unless the conflict check passes;
   * then the javadoc policy is saved, the use of the chosen superclass is
   * counted under the class's key when the superclass has a qualified name,
   * and the refactoring is started with the selected members.
   */
  method DoAction(store: StatisticsStore, settings: RefactoringSettings, checkConflicts: bool,
                  className: Option<string>, superClass: SuperClass, javaDocPolicy: int,
                  selected: seq<MemberInfo>)
    returns (request: Option<PullUpRequest>)
    modifies store, settings
    ensures !checkConflicts ==>
      request.None? && store.counts == old(store.counts) && store.values == old(store.values) &&
      settings.pullUpMembersJavadoc == old(settings.pullUpMembersJavadoc)
    ensures checkConflicts ==>
      request == Some(PullUpRequest(superClass, selected, javaDocPolicy)) &&
      settings.pullUpMembersJavadoc == javaDocPolicy
    ensures checkConflicts && superClass.qualifiedName.Some? ==>
      store.counts == Inc(old(store.counts), StatKey(className), superClass.qualifiedName.value) &&
      store.values == Record(old(store.values), StatKey(className), superClass.qualifiedName.value)
    ensures checkConflicts && superClass.qualifiedName.None? ==>
      store.counts == old(store.counts) && store.values == old(store.values)
  {
    if !checkConflicts {
      return None;
    }
    settings.pullUpMembersJavadoc := javaDocPolicy;
    var name := superClass.qualifiedName;
    if name.Some? {
      store.IncUseCount(StatKey(className), name.value);
    }
    request := Some(PullUpRequest(superClass, selected, javaDocPolicy));
  }

  /**
   * Once a superclass with a qualified name has been chosen for a class, the
   * next dialog for that class preselects from the statistics (and so offers
   * a candidate) whenever that superclass is among the candidates; with no
   * other used value recorded before it, it preselects exactly that superclass.
   */
  lemma RecordedChoiceIsPreselected(values: map<string, seq<string>>, counts: map<(string, string), nat>,
                                    className: Option<string>, name: string,
                                    candidates: seq<SuperClass>, nearestBase: Option<SuperClass>)
    requires FindCandidate(name, candidates).Some?
    ensures var key := StatKey(className);
      var recorded, used := Values(Record(values, key, name), key), Inc(counts, key, name);
      StatisticsChoice(recorded, used, key, candidates).Some? &&
      Preselection(recorded, used, key, candidates, nearestBase).value in candidates
    ensures var key := StatKey(className);
      var recorded, used := Values(Record(values, key, name), key), Inc(counts, key, name);
      (forall v :: v in recorded && v != name ==> UseCount(used, key, v) == 0) ==>
        Preselection(recorded, used, key, candidates, nearestBase) == FindCandidate(name, candidates)
  {
    var key := StatKey(className);
    var recorded, used := Values(Record(values, key, name), key), Inc(counts, key, name);
    StatisticsChoiceSpec(recorded, used, key, candidates);
    FindCandidateSpec(name, candidates);
    if forall v :: v in recorded && v != name ==> UseCount(used, key, v) == 0 {
      OnlyUsedValueChosen(recorded, used, key, name, candidates);
    }
  }

  lemma {:induction false} OnlyUsedValueChosen(recorded: seq<string>, counts: map<(string, string), nat>, key: string,
                                               name: string, candidates: seq<SuperClass>)
    requires name in recorded && UseCount(counts, key, name) > 0 && FindCandidate(name, candidates).Some?
    requires forall v :: v in recorded && v != name ==> UseCount(counts, key, v) == 0
    ensures StatisticsChoice(recorded, counts, key, candidates) == FindCandidate(name, candidates)
  {
    if recorded[0] != name {
      assert recorded[0] in recorded;
      assert name in recorded[1..] by {
        assert recorded == [recorded[0]] + recorded[1..];
      }
      forall v | v in recorded[1..] && v != name
        ensures UseCount(counts, key, v) == 0
      {
        assert v in recorded;
      }
      OnlyUsedValueChosen(recorded[1..], counts, key, name, candidates);
    }
  }

  // ---------------------------------------------------------------------------
  // Initial "make abstract" flags
  // ---------------------------------------------------------------------------

  /** The loop sets the flag of a member when abstractness is editable for it and it can own a doc comment. */
  predicate Eligible(target: Option<SuperClass>, info: MemberInfo) {
    IsAbstractEnabled(target, info) && IsDocCommentOwner(info.member.kind)
  }

  /** The loop stops after an eligible member that has a doc comment. */
  predicate Stops(target: Option<SuperClass>, info: MemberInfo) {
    Eligible(target, info) && info.member.hasDocComment
  }

  /** The index of the member the loop stops at, or the number of members when it does not stop. */
  function FirstStop(infos: seq<MemberInfo>, target: Option<SuperClass>): (r: nat)
    ensures r <= |infos|
    ensures r < |infos| ==> Stops(target, infos[r])
    ensures forall k :: 0 <= k < r ==> !Stops(target, infos[k])
  {
    if infos == [] then 0
    else if Stops(target, infos[0]) then 0
    else 1 + FirstStop(infos[1..], target)
  }

  /** A member after the loop has handled it. */
  function Flag(target: Option<SuperClass>, info: MemberInfo): MemberInfo
  {
    if Eligible(target, info) then info.(toAbstract := IsAbstractWhenDisabled(target, info)) else info
  }

  /** The member list after the loop: handled up to and including the stopping member, untouched after it. */
  function AbstractFlags(infos: seq<MemberInfo>, target: Option<SuperClass>): seq<MemberInfo>
  {
    var stop := FirstStop(infos, target);
    seq(|infos|, k requires 0 <= k < |infos| => if k <= stop then Flag(target, infos[k]) else infos[k])
  }

  /**
   * The set-up loop: for each member, when abstractness is editable and the
   * member can own a doc comment, set its flag to whether it is abstract
   * when disabled; stop at the first such member that has a doc comment.
   * The javadoc panel is enabled when the loop stopped.
   */
  method SetAbstractFlags(infos: array<MemberInfo>, target: Option<SuperClass>) returns (hasJavadoc: bool)
    modifies infos
    ensures infos[..] == AbstractFlags(old(infos[..]), target)
    ensures hasJavadoc <==> FirstStop(old(infos[..]), target) < infos.Length
  {
    ghost var original := infos[..];
    ghost var stop := FirstStop(original, target);
    hasJavadoc := false;
    var k := 0;
    while k < infos.Length
      invariant k <= stop
      invariant !hasJavadoc
      invariant forall j :: 0 <= j < k ==> infos[j] == Flag(target, original[j])
      invariant forall j :: k <= j < infos.Length ==> infos[j] == original[j]
    {
      var info := infos[k];
      if IsAbstractEnabled(target, info) && IsDocCommentOwner(info.member.kind) {
        infos[k] := info.(toAbstract := IsAbstractWhenDisabled(target, info));
        if info.member.hasDocComment {
          hasJavadoc := true;
          break;
        }
      }
      k := k + 1;
    }
    assert hasJavadoc ==> k == stop;
    assert !hasJavadoc ==> k == infos.Length == stop;
  }

  /** The loop changes no member, no check box, and no flag after the stopping member. */
  lemma AbstractFlagsKeepRest(infos: seq<MemberInfo>, target: Option<SuperClass>)
    ensures |AbstractFlags(infos, target)| == |infos|
    ensures forall k :: 0 <= k < |infos| ==>
      AbstractFlags(infos, target)[k].member == infos[k].member &&
      AbstractFlags(infos, target)[k].checked == infos[k].checked
    ensures forall k :: FirstStop(infos, target) < k < |infos| ==> AbstractFlags(infos, target)[k] == infos[k]
  {
  }

  /**
   * A flag is only ever turned on for a method being pulled into an interface
   * of language level 8 or higher, and only for a member up to the stopping one.
   */
  lemma AbstractFlagsOnlyInterfaceMethods(infos: seq<MemberInfo>, target: Option<SuperClass>, k: nat)
    requires k < |infos|
    requires AbstractFlags(infos, target)[k].toAbstract && !infos[k].toAbstract
    ensures target.Some? && target.value.isInterface && target.value.languageLevel8OrHigher
    ensures infos[k].member.kind.Method?
    ensures k <= FirstStop(infos, target)
  {
  }

  /**
   * The loop's `break` leaves the flags of all later members as they were:
   * two documented methods pulled into a Java 8 interface, and only the first
   * becomes abstract.
   */
  lemma BreakSkipsLaterMembers(a: Member, b: Member, superClass: SuperClass)
    requires a.kind.Method? && a.hasDocComment && b.kind.Method?
    requires superClass.isInterface && superClass.languageLevel8OrHigher
    ensures var infos := [MemberInfo(a, false, false), MemberInfo(b, false, false)];
      AbstractFlags(infos, Some(superClass)) == [MemberInfo(a, false, true), MemberInfo(b, false, false)] &&
      IsAbstractWhenDisabled(Some(superClass), infos[1])
  {
    var infos := [MemberInfo(a, false, false), MemberInfo(b, false, false)];
    assert Stops(Some(superClass), infos[0]);
    assert FirstStop(infos, Some(superClass)) == 0;
  }

  /**
   * The set-up loop without the early exit: every eligible member gets its
   * flag, and the javadoc panel is enabled when some eligible member has a
   * doc comment.
   */
  method SetAbstractFlagsCorrected(infos: array<MemberInfo>, target: Option<SuperClass>) returns (hasJavadoc: bool)
    modifies infos
    ensures forall k :: 0 <= k < infos.Length ==> infos[k] == Flag(target, old(infos[k]))
    ensures hasJavadoc <==> exists k :: 0 <= k < infos.Length && Stops(target, old(infos[k]))
  {
    hasJavadoc := false;
    for k := 0 to infos.Length
      invariant forall j :: 0 <= j < k ==> infos[j] == Flag(target, old(infos[j]))
      invariant forall j :: k <= j < infos.Length ==> infos[j] == old(infos[j])
      invariant hasJavadoc <==> exists j :: 0 <= j < k && Stops(target, old(infos[j]))
    {
      var info := infos[k];
      if IsAbstractEnabled(target, info) && IsDocCommentOwner(info.member.kind) {
        infos[k] := info.(toAbstract := IsAbstractWhenDisabled(target, info));
        if info.member.hasDocComment {
          hasJavadoc := true;
        }
      }
    }
  }

  /** Without the early exit, every method pulled into a Java 8 interface is made abstract. */
  lemma CorrectedFlagsAllInterfaceMethods(target: Option<SuperClass>, info: MemberInfo)
    requires target.Some? && target.value.isInterface && target.value.languageLevel8OrHigher
    requires info.member.kind.Method?
    ensures Flag(target, info).toAbstract
    ensures Flag(target, info).member == info.member && Flag(target, info).checked == info.checked
  {
  }
}
