/**
 The ownership decision told on the scope, the targets and the Git facts alone: exactly when a
 write or delete is allowed, under which root, and with which reason it is denied otherwise.
 */
module OwnershipExact {
  import opened Text
  import opened Ownership

  predicate Below(path: Path, root: Path) {
    |root| <= |path| && path[..|root|] == root
  }

  predicate BelowSome(path: Path, roots: seq<Path>) {
    exists root :: root in roots && Below(path, root)
  }

  predicate BelowGiven(path: Path, root: Option<Path>) {
    root.Some? && Below(path, root.value)
  }

  // ---- one target

  predicate Writable(scope: OwnedScope, path: Path) {
    || BelowSome(path, scope.repoRoots) || BelowSome(path, scope.externalOutputRoots)
    || BelowSome(path, scope.declaredOutputs) || BelowGiven(path, scope.roleTemp)
    || BelowGiven(path, scope.controllerState)
  }

  /** A sibling worktree contains the path, and lies in a repository root itself or is all that
      contains it. */
  predicate SiblingClaims(scope: OwnedScope, path: Path) {
    exists s :: s in scope.siblings && Below(path, s)
                && (BelowSome(s, scope.repoRoots) || !BelowSome(path, scope.repoRoots))
  }

  /** A path below the session assets was declared, or is temporary, or is the controller's. */
  predicate Staged(scope: OwnedScope, path: Path) {
    BelowGiven(path, scope.sessionAssets) ==>
      BelowSome(path, scope.declaredOutputs) || BelowGiven(path, scope.roleTemp)
      || BelowGiven(path, scope.controllerState)
  }

  predicate HexOf(s: string, length: nat) {
    |s| == length && forall i :: 0 <= i < length ==> s[i] in "0123456789abcdef"
  }

  /** 40 or 64 hex digits, and at most one newline after them. */
  predicate NamesAnObject(s: string) {
    HexOf(s, 40) || HexOf(s, 64)
    || (s != "" && s[|s| - 1] == '\n' && (HexOf(s[..|s| - 1], 40) || HexOf(s[..|s| - 1], 64)))
  }

  /** One stage-0 entry for a regular file, the same blob in index, HEAD and worktree under one
      path, and nothing pending. */
  predicate Recoverable(f: GitFacts) {
    && f.regularFile && f.rel != ""
    && f.indexEntries == 1 && f.indexStage == 0 && (f.indexMode == "100644" || f.indexMode == "100755")
    && f.indexPath == f.rel && f.headPath == f.rel && f.headType == "blob"
    && NamesAnObject(f.headCommit) && NamesAnObject(f.headBlob)
    && f.indexBlob == f.headBlob && f.worktreeBlob == f.headBlob
    && f.worktreeClean && f.indexClean
  }

  predicate CanBeUndone(scope: OwnedScope, facts: map<Path, GitFacts>, path: Path) {
    || BelowGiven(path, scope.roleTemp)
    || (BelowSome(path, scope.repoRoots) && path in facts && Recoverable(facts[path]))
  }

  /** Why a target is denied: the first of these that applies. */
  function Denial(
    scope: OwnedScope, kind: ActionClass, facts: map<Path, GitFacts>, target: Option<Path>): Option<DenyReason> {
    if target.None? then Some(TargetUnresolved)
    else if SiblingClaims(scope, target.value) then Some(SiblingWorktree)
    else if !Staged(scope, target.value) then Some(SessionAssetNotDeclaredOutput)
    else if !Writable(scope, target.value) then Some(TargetOutsideOwnedScope)
    else if kind == Delete && !CanBeUndone(scope, facts, target.value) then Some(DeleteNotRecoverable)
    else None
  }

  lemma BelowIsInside(path: Path, root: Path)
    ensures Below(path, root) <==> Inside(path, root)
  {
  }

  lemma BelowSomeExactly(path: Path, roots: seq<Path>)
    ensures InsideAny(path, roots) <==> BelowSome(path, roots)
  {
    if InsideAny(path, roots) {
      var i :| 0 <= i < |roots| && Inside(path, roots[i]);
      BelowIsInside(path, roots[i]);
    }
    if root :| root in roots && Below(path, root) {
      BelowIsInside(path, root);
      var i :| 0 <= i < |roots| && roots[i] == root;
    }
  }

  lemma BelowGivenExactly(path: Path, root: Option<Path>)
    ensures InsideSome(path, root) <==> BelowGiven(path, root)
    ensures InsideAny(path, Given(root)) <==> BelowGiven(path, root)
  {
    if root.Some? {
      BelowIsInside(path, root.value);
      assert Given(root)[0] == root.value;
    }
  }

  lemma WritableExactly(scope: OwnedScope, path: Path)
    ensures Owns(scope, path) <==> Writable(scope, path)
  {
    hide InsideAny, BelowSome, BelowGiven;
    var a := scope.repoRoots + scope.externalOutputRoots;
    var b := a + scope.declaredOutputs;
    InsideAnyConcat(path, scope.repoRoots, scope.externalOutputRoots);
    InsideAnyConcat(path, a, scope.declaredOutputs);
    InsideAnyConcat(path, b, Given(scope.roleTemp));
    InsideAnyConcat(path, b + Given(scope.roleTemp), Given(scope.controllerState));
    BelowSomeExactly(path, scope.repoRoots);
    BelowSomeExactly(path, scope.externalOutputRoots);
    BelowSomeExactly(path, scope.declaredOutputs);
    BelowGivenExactly(path, scope.roleTemp);
    BelowGivenExactly(path, scope.controllerState);
  }

  lemma SiblingExactly(scope: OwnedScope, path: Path)
    ensures SiblingForbids(scope, path) <==> SiblingClaims(scope, path)
  {
    hide InsideAny, BelowSome, Below, Inside;
    BelowSomeExactly(path, scope.repoRoots);
    forall s
      ensures Inside(path, s) <==> Below(path, s)
      ensures InsideAny(s, scope.repoRoots) <==> BelowSome(s, scope.repoRoots)
    {
      BelowIsInside(path, s);
      BelowSomeExactly(s, scope.repoRoots);
    }
    if SiblingForbids(scope, path) {
      var i :| 0 <= i < |scope.siblings| && Inside(path, scope.siblings[i])
        && (InsideAny(scope.siblings[i], scope.repoRoots) || !InsideAny(path, scope.repoRoots));
      assert scope.siblings[i] in scope.siblings;
    }
    if s :| s in scope.siblings && Below(path, s)
            && (BelowSome(s, scope.repoRoots) || !BelowSome(path, scope.repoRoots))
    {
      var i :| 0 <= i < |scope.siblings| && scope.siblings[i] == s;
    }
  }

  lemma StagedExactly(scope: OwnedScope, path: Path)
    ensures AssetForbids(scope, path) <==> !Staged(scope, path)
  {
    hide InsideAny, BelowSome, BelowGiven, InsideSome;
    BelowGivenExactly(path, scope.sessionAssets);
    BelowSomeExactly(path, scope.declaredOutputs);
    BelowGivenExactly(path, scope.roleTemp);
    BelowGivenExactly(path, scope.controllerState);
  }

  lemma ObjectNames(s: string)
    ensures IsObjectId(s) <==> NamesAnObject(s)
  {
    assert forall c :: IsHexDigit(c) <==> c in "0123456789abcdef" by {
      forall c ensures IsHexDigit(c) <==> c in "0123456789abcdef" { HexLetters(c); }
    }
    hide IsHexDigit;
  }

  lemma HexLetters(c: char)
    ensures IsHexDigit(c) <==> c in "0123456789abcdef"
  {
  }

  lemma ProofExactly(facts: Option<GitFacts>)
    ensures DeleteProof(facts) ==
            if facts.Some? && Recoverable(facts.value) then
              Some(GitHeadBlob(facts.value.headCommit, facts.value.headBlob))
            else None
  {
    hide IsObjectId, NamesAnObject;
    if facts.Some? {
      var f := facts.value;
      ObjectNames(f.headCommit);
      ObjectNames(f.headBlob);
    }
  }

  // ---- under whose root

  /** The root is the first of the list that contains the path. */
  predicate FirstOf(path: Path, roots: seq<Path>, root: Path) {
    exists k :: 0 <= k < |roots| && roots[k] == root && Below(path, root)
                && forall j :: 0 <= j < k ==> !Below(path, roots[j])
  }

  /** Repository roots come before external ones, those before declared outputs, those before the
      role's temporary directory, and that before the controller's state. */
  predicate Authorizes(scope: OwnedScope, path: Path, kind: AuthorityKind, root: Path) {
    match kind
    case RepoRoot => FirstOf(path, scope.repoRoots, root)
    case ExternalOutputRoot => !BelowSome(path, scope.repoRoots) && FirstOf(path, scope.externalOutputRoots, root)
    case DeclaredOutput =>
      !BelowSome(path, scope.repoRoots) && !BelowSome(path, scope.externalOutputRoots)
      && FirstOf(path, scope.declaredOutputs, root)
    case RoleTemp =>
      !BelowSome(path, scope.repoRoots) && !BelowSome(path, scope.externalOutputRoots)
      && !BelowSome(path, scope.declaredOutputs) && scope.roleTemp == Some(root) && Below(path, root)
    case ControllerState =>
      !BelowSome(path, scope.repoRoots) && !BelowSome(path, scope.externalOutputRoots)
      && !BelowSome(path, scope.declaredOutputs) && !BelowGiven(path, scope.roleTemp)
      && scope.controllerState == Some(root) && Below(path, root)
  }

  lemma {:induction false} FirstContainingExactly(path: Path, roots: seq<Path>)
    ensures var r := FirstContaining(path, roots);
      && (r.None? <==> !BelowSome(path, roots))
      && (r.Some? ==> FirstOf(path, roots, r.value))
  {
    BelowSomeExactly(path, roots);
    if roots != [] {
      BelowIsInside(path, roots[0]);
      if !Inside(path, roots[0]) {
        FirstContainingExactly(path, roots[1..]);
        var r := FirstContaining(path, roots[1..]);
        if r.Some? {
          var k :| 0 <= k < |roots[1..]| && roots[1..][k] == r.value && Below(path, r.value)
            && forall j :: 0 <= j < k ==> !Below(path, roots[1..][j]);
          assert roots[k + 1] == r.value;
          assert forall j :: 0 < j < k + 1 ==> roots[j] == roots[1..][j - 1];
        }
      }
    }
  }

  lemma AuthorityExactly(scope: OwnedScope, path: Path)
    ensures AuthorityFor(scope, path).Some? <==> Writable(scope, path)
    ensures AuthorityFor(scope, path).Some? ==>
              Authorizes(scope, path, AuthorityFor(scope, path).value.0, AuthorityFor(scope, path).value.1)
    ensures AuthorityFor(scope, path).Some? ==>
              (AuthorityFor(scope, path).value.0 == RepoRoot <==> BelowSome(path, scope.repoRoots))
  {
    hide FirstContaining, BelowSome, BelowGiven, Below;
    FirstContainingExactly(path, scope.repoRoots);
    FirstContainingExactly(path, scope.externalOutputRoots);
    FirstContainingExactly(path, scope.declaredOutputs);
    OneRoot(path, scope.roleTemp);
    OneRoot(path, scope.controllerState);
    AuthorityUnfolds(scope, path);
    hide AuthorityFor, Given, FirstOf;
  }

  lemma OneRoot(path: Path, root: Option<Path>)
    ensures FirstContaining(path, Given(root)) == if BelowGiven(path, root) then root else None
    ensures BelowGiven(path, root) ==> root.Some? && Below(path, root.value)
  {
    if root.Some? { BelowIsInside(path, root.value); }
  }

  lemma AuthorityUnfolds(scope: OwnedScope, path: Path)
    ensures AuthorityFor(scope, path) ==
            var repo := FirstContaining(path, scope.repoRoots);
            var external := FirstContaining(path, scope.externalOutputRoots);
            var declared := FirstContaining(path, scope.declaredOutputs);
            var temp := FirstContaining(path, Given(scope.roleTemp));
            var state := FirstContaining(path, Given(scope.controllerState));
            if repo.Some? then Some((RepoRoot, repo.value))
            else if external.Some? then Some((ExternalOutputRoot, external.value))
            else if declared.Some? then Some((DeclaredOutput, declared.value))
            else if temp.Some? then Some((RoleTemp, temp.value))
            else if state.Some? then Some((ControllerState, state.value))
            else None
  {
    hide FirstContaining, Given;
    assert PRECEDENCE[0] == RepoRoot && PRECEDENCE[1] == ExternalOutputRoot && PRECEDENCE[2] == DeclaredOutput
           && PRECEDENCE[3] == RoleTemp && PRECEDENCE[4] == ControllerState;
    assert AuthorityFrom(scope, path, 5) == None;
    assert AuthorityFrom(scope, path, 4) == if FirstContaining(path, Given(scope.controllerState)).Some?
      then Some((ControllerState, FirstContaining(path, Given(scope.controllerState)).value)) else None;
    assert AuthorityFrom(scope, path, 3) == if FirstContaining(path, Given(scope.roleTemp)).Some?
      then Some((RoleTemp, FirstContaining(path, Given(scope.roleTemp)).value)) else AuthorityFrom(scope, path, 4);
    assert AuthorityFrom(scope, path, 2) == if FirstContaining(path, scope.declaredOutputs).Some?
      then Some((DeclaredOutput, FirstContaining(path, scope.declaredOutputs).value))
      else AuthorityFrom(scope, path, 3);
    assert AuthorityFrom(scope, path, 1) == if FirstContaining(path, scope.externalOutputRoots).Some?
      then Some((ExternalOutputRoot, FirstContaining(path, scope.externalOutputRoots).value))
      else AuthorityFrom(scope, path, 2);
  }

  /** The authority recorded for an allowed target. */
  predicate Recorded(scope: OwnedScope, kind: ActionClass, facts: map<Path, GitFacts>, path: Path, a: Authority) {
    && Authorizes(scope, path, a.kind, a.root)
    && a.recoverability ==
       if kind != Delete then None
       else if BelowGiven(path, scope.roleTemp) then Some(InRoleTemp)
       else if path in facts then Some(GitHeadBlob(facts[path].headCommit, facts[path].headBlob))
       else None
  }

  lemma JudgeExactly(scope: OwnedScope, kind: ActionClass, facts: map<Path, GitFacts>, target: Option<Path>)
    ensures match JudgeTarget(scope, kind, facts, target)
            case Refused(reason) => Denial(scope, kind, facts, target) == Some(reason)
            case Granted(a) => target.Some? && Denial(scope, kind, facts, target).None?
                               && Recorded(scope, kind, facts, target.value, a)
  {
    hide SiblingForbids, AssetForbids, Owns, AuthorityFor, Authorizes, SiblingClaims, Staged, Writable, BelowSome,
         BelowGiven, InsideSome, DeleteProof, Recoverable;
    if target.Some? {
      var path := target.value;
      SiblingExactly(scope, path);
      StagedExactly(scope, path);
      WritableExactly(scope, path);
      AuthorityExactly(scope, path);
      BelowGivenExactly(path, scope.roleTemp);
      ProofExactly(if path in facts then Some(facts[path]) else None);
    }
  }

  // ---- the decision

  /** A write or delete is allowed exactly when it is resolved and no target is denied; and then
      each target has the authority recorded that is its due. */
  lemma AllowsExactly(action: Action, scope: OwnedScope, facts: map<Path, GitFacts>)
    ensures var d := Decide(action, scope, facts);
      && (d.Allow? <==>
            && action.kind in {Write, Delete} && action.resolved
            && forall i :: 0 <= i < |action.targets| ==> Denial(scope, action.kind, facts, action.targets[i]).None?)
      && (d.Allow? ==>
            && |d.authorities| == |action.targets|
            && forall i :: 0 <= i < |action.targets| ==>
                 action.targets[i].Some?
                 && Recorded(scope, action.kind, facts, action.targets[i].value, d.authorities[i]))
  {
    hide JudgeTarget, JudgeTargets, Denial, Recorded;
    JudgeTargetsExactly(scope, action.kind, facts, action.targets);
    forall i | 0 <= i < |action.targets|
      ensures match JudgeTarget(scope, action.kind, facts, action.targets[i])
              case Refused(reason) => Denial(scope, action.kind, facts, action.targets[i]) == Some(reason)
              case Granted(a) => action.targets[i].Some? && Denial(scope, action.kind, facts, action.targets[i]).None?
                                 && Recorded(scope, action.kind, facts, action.targets[i].value, a)
    {
      JudgeExactly(scope, action.kind, facts, action.targets[i]);
    }
  }

  /** The first target that is denied is denied for this reason. */
  predicate DeniedFirst(
    scope: OwnedScope, kind: ActionClass, facts: map<Path, GitFacts>, targets: seq<Option<Path>>, reason: DenyReason)
  {
    exists i :: 0 <= i < |targets| && Denial(scope, kind, facts, targets[i]) == Some(reason)
                && forall j :: 0 <= j < i ==> Denial(scope, kind, facts, targets[j]).None?
  }

  lemma {:induction false} FirstDenial(
    scope: OwnedScope, kind: ActionClass, facts: map<Path, GitFacts>, targets: seq<Option<Path>>)
    ensures JudgeTargets(scope, kind, facts, targets).Deny? ==>
              DeniedFirst(scope, kind, facts, targets, JudgeTargets(scope, kind, facts, targets).reason)
    ensures JudgeTargets(scope, kind, facts, targets).Allow? ==>
              forall i :: 0 <= i < |targets| ==> Denial(scope, kind, facts, targets[i]).None?
    ensures !JudgeTargets(scope, kind, facts, targets).AllowRead?
  {
    hide JudgeTarget, Denial, Recorded;
    if targets != [] {
      var front, n := targets[..|targets| - 1], |targets| - 1;
      FirstDenial(scope, kind, facts, front);
      JudgeExactly(scope, kind, facts, targets[n]);
      assert forall i :: 0 <= i < n ==> front[i] == targets[i];
      if JudgeTargets(scope, kind, facts, front).Allow? && JudgeTarget(scope, kind, facts, targets[n]).Refused? {
        assert Denial(scope, kind, facts, targets[n]) == Some(JudgeTargets(scope, kind, facts, targets).reason);
      }
    }
  }

  /** Every other answer: a read is let through unless it touches a protected path; what could not
      be resolved, and a child, is denied as such; and a write or delete with the first denial. */
  lemma DeniesExactly(action: Action, scope: OwnedScope, facts: map<Path, GitFacts>)
    ensures var d := Decide(action, scope, facts);
      match action.kind
      case Read =>
        d == if exists t :: t in action.targets && t.Some? && BelowSome(t.value, scope.protectedPaths)
             then Deny(ProtectedControllerState) else AllowRead
      case _ =>
        if action.kind == UnknownClass || !action.resolved then
          d == Deny(if action.reason == "" then TargetUnresolved else Stated(action.reason))
        else if action.kind == Child then d == Deny(ChildRequiresIdentityPolicy)
        else
          d.Allow? || (d.Deny? && DeniedFirst(scope, action.kind, facts, action.targets, d.reason))
  {
    hide JudgeTargets, Denial, InsideAny, BelowSome, DeniedFirst;
    FirstDenial(scope, action.kind, facts, action.targets);
    if action.kind == Read { ReadExactly(action, scope); }
  }

  lemma ReadExactly(action: Action, scope: OwnedScope)
    ensures (exists i :: 0 <= i < |action.targets| && action.targets[i].Some?
                         && InsideAny(action.targets[i].value, scope.protectedPaths)) <==>
            exists t :: t in action.targets && t.Some? && BelowSome(t.value, scope.protectedPaths)
  {
    hide InsideAny, BelowSome;
    forall p ensures InsideAny(p, scope.protectedPaths) <==> BelowSome(p, scope.protectedPaths) {
      BelowSomeExactly(p, scope.protectedPaths);
    }
    if t :| t in action.targets && t.Some? && BelowSome(t.value, scope.protectedPaths) {
      var i :| 0 <= i < |action.targets| && action.targets[i] == t;
    }
    if i :| 0 <= i < |action.targets| && action.targets[i].Some?
            && InsideAny(action.targets[i].value, scope.protectedPaths)
    {
      assert action.targets[i] in action.targets;
    }
  }
}
