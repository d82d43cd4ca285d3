/**
 The ownership decision: which writes and deletes a session may make, under whose root, and
 with what proof that a delete can be undone. Paths are resolved component sequences.
 */
module Ownership {
  import opened Text

  type Path = seq<string>

  /** `_inside`: a root contains itself and everything below it. */
  predicate Inside(path: Path, root: Path) {
    root <= path
  }

  predicate InsideAny(path: Path, roots: seq<Path>) {
    exists i :: 0 <= i < |roots| && Inside(path, roots[i])
  }

  predicate InsideSome(path: Path, root: Option<Path>) {
    root.Some? && Inside(path, root.value)
  }

  datatype OwnedScope = OwnedScope(
    repoRoots: seq<Path>, declaredOutputs: seq<Path>, externalOutputRoots: seq<Path>,
    roleTemp: Option<Path>, controllerState: Option<Path>, sessionAssets: Option<Path>,
    siblings: seq<Path>, protectedPaths: seq<Path>)

  datatype AuthorityKind = RepoRoot | ExternalOutputRoot | DeclaredOutput | RoleTemp | ControllerState

  function Given(root: Option<Path>): seq<Path> {
    if root.Some? then [root.value] else []
  }

  /** The roots of one kind. */
  function RootsOf(scope: OwnedScope, kind: AuthorityKind): seq<Path> {
    match kind
    case RepoRoot => scope.repoRoots
    case ExternalOutputRoot => scope.externalOutputRoots
    case DeclaredOutput => scope.declaredOutputs
    case RoleTemp => Given(scope.roleTemp)
    case ControllerState => Given(scope.controllerState)
  }

  /** `writable_roots`. */
  function WritableRoots(scope: OwnedScope): seq<Path> {
    scope.repoRoots + scope.externalOutputRoots + scope.declaredOutputs
    + Given(scope.roleTemp) + Given(scope.controllerState)
  }

  predicate Owns(scope: OwnedScope, path: Path) {
    InsideAny(path, WritableRoots(scope))
  }

  const PRECEDENCE := [RepoRoot, ExternalOutputRoot, DeclaredOutput, RoleTemp, ControllerState]

  /** The first root of a list that contains the path. */
  function FirstContaining(path: Path, roots: seq<Path>): (r: Option<Path>)
    ensures r.Some? <==> InsideAny(path, roots)
    ensures r.Some? ==> r.value in roots && Inside(path, r.value)
  {
    if roots == [] then None
    else if Inside(path, roots[0]) then Some(roots[0])
    else FirstContaining(path, roots[1..])
  }

  /** `authority_for`, from the kind at position `from` of the precedence on. */
  function AuthorityFrom(scope: OwnedScope, path: Path, from: nat): Option<(AuthorityKind, Path)>
    requires from <= |PRECEDENCE|
    decreases |PRECEDENCE| - from
  {
    if from == |PRECEDENCE| then None
    else match FirstContaining(path, RootsOf(scope, PRECEDENCE[from]))
      case Some(root) => Some((PRECEDENCE[from], root))
      case None => AuthorityFrom(scope, path, from + 1)
  }

  function AuthorityFor(scope: OwnedScope, path: Path): Option<(AuthorityKind, Path)> {
    AuthorityFrom(scope, path, 0)
  }

  /** A kind is named only when no kind before it has a containing root. */
  lemma {:induction false} AuthorityIsFirst(scope: OwnedScope, path: Path, from: nat)
    requires from <= |PRECEDENCE|
    ensures var a := AuthorityFrom(scope, path, from);
      if a.None? then forall k :: from <= k < |PRECEDENCE| ==> !InsideAny(path, RootsOf(scope, PRECEDENCE[k]))
      else
        a.value.1 in RootsOf(scope, a.value.0) && Inside(path, a.value.1)
        && exists k :: from <= k < |PRECEDENCE| && PRECEDENCE[k] == a.value.0
                       && forall j :: from <= j < k ==> !InsideAny(path, RootsOf(scope, PRECEDENCE[j]))
    decreases |PRECEDENCE| - from
  {
    if from < |PRECEDENCE| {
      AuthorityIsFirst(scope, path, from + 1);
    }
  }

  lemma InsideAnyConcat(path: Path, a: seq<Path>, b: seq<Path>)
    ensures InsideAny(path, a + b) <==> InsideAny(path, a) || InsideAny(path, b)
  {
    if i :| 0 <= i < |a| && Inside(path, a[i]) { assert (a + b)[i] == a[i]; }
    if i :| 0 <= i < |b| && Inside(path, b[i]) { assert (a + b)[|a| + i] == b[i]; }
  }

  /** A path is owned exactly when some authority owns it, so the denial for an owned path
      without an authority is never reached. */
  lemma OwnsIsAuthority(scope: OwnedScope, path: Path)
    ensures Owns(scope, path) <==> AuthorityFor(scope, path).Some?
  {
    var a, b := scope.repoRoots, scope.repoRoots + scope.externalOutputRoots;
    InsideAnyConcat(path, a, scope.externalOutputRoots);
    InsideAnyConcat(path, b, scope.declaredOutputs);
    InsideAnyConcat(path, b + scope.declaredOutputs, Given(scope.roleTemp));
    InsideAnyConcat(path, b + scope.declaredOutputs + Given(scope.roleTemp), Given(scope.controllerState));
    AuthorityIsFirst(scope, path, 0);
    assert PRECEDENCE[0] == RepoRoot && PRECEDENCE[1] == ExternalOutputRoot && PRECEDENCE[2] == DeclaredOutput
           && PRECEDENCE[3] == RoleTemp && PRECEDENCE[4] == ControllerState;
  }

  // ---- deletes

  /** What the broker measured from Git for one delete target. */
  datatype GitFacts = GitFacts(
    regularFile: bool, rel: string, indexEntries: int, indexStage: int, indexMode: string, indexPath: string,
    headCommit: string, headType: string, headPath: string,
    headBlob: string, indexBlob: string, worktreeBlob: string, worktreeClean: bool, indexClean: bool)

  datatype Recoverability = InRoleTemp | GitHeadBlob(commit: string, blob: string)

  predicate AllHexDigits(s: string) {
    forall i :: 0 <= i < |s| ==> IsHexDigit(s[i])
  }

  /** `_OBJECT_ID.match`: 40 or 64 hex digits; the trailing `$` lets one newline pass. */
  predicate IsObjectId(s: string) {
    ((|s| == 40 || |s| == 64) && AllHexDigits(s))
    || ((|s| == 41 || |s| == 65) && s[|s| - 1] == '\n' && AllHexDigits(s[..|s| - 1]))
  }

  /** `clean_tracked_delete_proof`, clause by clause. */
  function DeleteProof(facts: Option<GitFacts>): Option<Recoverability> {
    if facts.None? then None
    else
      var f := facts.value;
      if !f.regularFile || f.rel == "" then None
      else if f.indexEntries != 1 || f.indexStage != 0 || f.indexMode !in {"100644", "100755"} || f.indexPath != f.rel
      then None
      else if !IsObjectId(f.headCommit) || !IsObjectId(f.headBlob) || !IsObjectId(f.indexBlob)
              || !IsObjectId(f.worktreeBlob)
      then None
      else if f.headType != "blob" || f.headPath != f.rel then None
      else if f.indexBlob != f.headBlob || f.headBlob != f.worktreeBlob then None
      else if !f.worktreeClean || !f.indexClean then None
      else Some(GitHeadBlob(f.headCommit, f.headBlob))
  }

  /** The bytes on disk are the ones HEAD holds for that path, and Git sees nothing pending. */
  predicate HeldByHead(f: GitFacts, proof: Recoverability) {
    proof == GitHeadBlob(f.headCommit, f.headBlob)
    && f.headBlob == f.indexBlob == f.worktreeBlob && f.headPath == f.indexPath == f.rel != ""
    && f.indexEntries == 1 && f.indexStage == 0 && f.worktreeClean && f.indexClean
  }

  // ---- the decision

  datatype ActionClass = Read | UnknownClass | Child | Write | Delete

  /** `reason` is what the classifier says when it could not resolve the action. */
  datatype Action = Action(kind: ActionClass, targets: seq<Option<Path>>, resolved: bool, reason: string)

  datatype DenyReason =
    | ProtectedControllerState | TargetUnresolved | ChildRequiresIdentityPolicy | SiblingWorktree
    | SessionAssetNotDeclaredOutput | TargetOutsideOwnedScope | DeleteNotRecoverable
    | Stated(reason: string)

  datatype Authority = Authority(kind: AuthorityKind, root: Path, recoverability: Option<Recoverability>)

  datatype Decision = Deny(reason: DenyReason) | AllowRead | Allow(authorities: seq<Authority>)

  datatype Verdict = Refused(reason: DenyReason) | Granted(authority: Authority)

  /** A sibling worktree forbids the target, unless it is a mere ancestor of a repository root
      that owns the target. */
  predicate SiblingForbids(scope: OwnedScope, target: Path) {
    exists i :: 0 <= i < |scope.siblings| && Inside(target, scope.siblings[i])
                && (InsideAny(scope.siblings[i], scope.repoRoots) || !InsideAny(target, scope.repoRoots))
  }

  predicate AssetForbids(scope: OwnedScope, target: Path) {
    InsideSome(target, scope.sessionAssets)
    && !InsideAny(target, scope.declaredOutputs) && !InsideSome(target, scope.roleTemp)
    && !InsideSome(target, scope.controllerState)
  }

  /** One target of a write or delete. */
  function JudgeTarget(
    scope: OwnedScope, kind: ActionClass, facts: map<Path, GitFacts>, target: Option<Path>): Verdict {
    if target.None? then Refused(TargetUnresolved)
    else
      var path := target.value;
      if SiblingForbids(scope, path) then Refused(SiblingWorktree)
      else if AssetForbids(scope, path) then Refused(SessionAssetNotDeclaredOutput)
      else if !Owns(scope, path) then Refused(TargetOutsideOwnedScope)
      else match AuthorityFor(scope, path)
        case None => Refused(TargetOutsideOwnedScope)
        case Some((authority, root)) =>
          if kind != Delete then Granted(Authority(authority, root, None))
          else if InsideSome(path, scope.roleTemp) then Granted(Authority(authority, root, Some(InRoleTemp)))
          else
            var proof := DeleteProof(if path in facts then Some(facts[path]) else None);
            if proof.None? || authority != RepoRoot then Refused(DeleteNotRecoverable)
            else Granted(Authority(authority, root, proof))
  }

  /** The targets in order: the first refusal decides. */
  function JudgeTargets(
    scope: OwnedScope, kind: ActionClass, facts: map<Path, GitFacts>, targets: seq<Option<Path>>): Decision {
    if targets == [] then Allow([])
    else
      var front := JudgeTargets(scope, kind, facts, targets[..|targets| - 1]);
      if !front.Allow? then front
      else match JudgeTarget(scope, kind, facts, targets[|targets| - 1])
        case Refused(reason) => Deny(reason)
        case Granted(authority) => Allow(front.authorities + [authority])
  }

  function Unresolved(action: Action): Decision {
    Deny(if action.reason != "" then Stated(action.reason) else TargetUnresolved)
  }

  /** `decide`. */
  function Decide(action: Action, scope: OwnedScope, facts: map<Path, GitFacts>): Decision {
    match action.kind
    case Read =>
      if exists i :: 0 <= i < |action.targets| && action.targets[i].Some?
                     && InsideAny(action.targets[i].value, scope.protectedPaths)
      then Deny(ProtectedControllerState) else AllowRead
    case UnknownClass => Unresolved(action)
    case _ =>
      if !action.resolved then Unresolved(action)
      else if action.kind == Child then Deny(ChildRequiresIdentityPolicy)
      else JudgeTargets(scope, action.kind, facts, action.targets)
  }

  lemma {:induction false} JudgeTargetsExactly(
    scope: OwnedScope, kind: ActionClass, facts: map<Path, GitFacts>, targets: seq<Option<Path>>)
    ensures var d := JudgeTargets(scope, kind, facts, targets);
      && (d.Allow? || d.Deny?)
      && (d.Allow? <==> forall i :: 0 <= i < |targets| ==> JudgeTarget(scope, kind, facts, targets[i]).Granted?)
      && (d.Allow? ==>
            |d.authorities| == |targets|
            && forall i :: 0 <= i < |targets| ==>
                JudgeTarget(scope, kind, facts, targets[i]) == Granted(d.authorities[i]))
  {
    hide JudgeTarget;
    if targets != [] {
      var front := targets[..|targets| - 1];
      JudgeTargetsExactly(scope, kind, facts, front);
      assert forall i :: 0 <= i < |front| ==> front[i] == targets[i];
    }
  }

  /** What an authority must be worth for its target. */
  ghost predicate Justified(
    scope: OwnedScope, kind: ActionClass, facts: map<Path, GitFacts>, path: Path, a: Authority)
  {
    && a.root in RootsOf(scope, a.kind) && Inside(path, a.root)
    && (forall k, j :: 0 <= j < k < |PRECEDENCE| && PRECEDENCE[k] == a.kind ==>
          !InsideAny(path, RootsOf(scope, PRECEDENCE[j])))
    && (kind == Delete ==>
          (a.recoverability == Some(InRoleTemp) && InsideSome(path, scope.roleTemp))
          || (a.kind == RepoRoot && a.recoverability.Some? && path in facts
              && HeldByHead(facts[path], a.recoverability.value)))
    && (forall i :: 0 <= i < |scope.siblings| && Inside(path, scope.siblings[i]) ==>
          exists r :: r in scope.repoRoots && Inside(path, r) && scope.siblings[i] < r)
  }

  /** An allowed target inside a registered sibling lies in a repository root strictly below
      that sibling: two ancestors of one path are always one above the other. */
  lemma SiblingIsAncestor(scope: OwnedScope, path: Path, sibling: Path)
    requires !SiblingForbids(scope, path) && sibling in scope.siblings && Inside(path, sibling)
    ensures exists r :: r in scope.repoRoots && Inside(path, r) && sibling < r
  {
    var i :| 0 <= i < |scope.siblings| && scope.siblings[i] == sibling;
    assert InsideAny(path, scope.repoRoots) && !InsideAny(sibling, scope.repoRoots);
    var j :| 0 <= j < |scope.repoRoots| && Inside(path, scope.repoRoots[j]);
    var r := scope.repoRoots[j];
    assert !Inside(sibling, r);
    assert forall k :: 0 <= k < |r| && k < |sibling| ==> r[k] == path[k] == sibling[k];
  }

  lemma GrantedIsJustified(scope: OwnedScope, kind: ActionClass, facts: map<Path, GitFacts>, target: Option<Path>)
    requires JudgeTarget(scope, kind, facts, target).Granted?
    ensures target.Some?
            && Justified(scope, kind, facts, target.value, JudgeTarget(scope, kind, facts, target).authority)
  {
    hide AssetForbids, Owns, IsObjectId, RootsOf;
    var path := target.value;
    AuthorityIsFirst(scope, path, 0);
    hide AuthorityFrom;
    forall i | 0 <= i < |scope.siblings| && Inside(path, scope.siblings[i])
      ensures exists r :: r in scope.repoRoots && Inside(path, r) && scope.siblings[i] < r
    {
      SiblingIsAncestor(scope, path, scope.siblings[i]);
    }
  }

  /** Whenever a write or delete is allowed, the authorities match the targets one to one, and
      each is justified: its root contains the target and is of the first kind that owns it, a
      delete is in the role's temporary directory or provably recoverable from HEAD, and no
      sibling worktree claims the target. */
  lemma AllowedIsJustified(action: Action, scope: OwnedScope, facts: map<Path, GitFacts>)
    requires Decide(action, scope, facts).Allow?
    ensures action.kind in {Write, Delete} && action.resolved
    ensures var d := Decide(action, scope, facts);
      |d.authorities| == |action.targets|
      && forall i :: 0 <= i < |action.targets| ==>
           action.targets[i].Some?
           && Justified(scope, action.kind, facts, action.targets[i].value, d.authorities[i])
  {
    hide JudgeTarget, JudgeTargets, Justified;
    JudgeTargetsExactly(scope, action.kind, facts, action.targets);
    forall i | 0 <= i < |action.targets|
      ensures action.targets[i].Some?
      ensures Justified(scope, action.kind, facts, action.targets[i].value, Decide(action, scope, facts).authorities[i])
    {
      GrantedIsJustified(scope, action.kind, facts, action.targets[i]);
    }
  }

  /** The decision loop. */
  method DecideAction(action: Action, scope: OwnedScope, facts: map<Path, GitFacts>) returns (d: Decision)
    ensures d == Decide(action, scope, facts)
  {
    hide JudgeTarget;
    if action.kind == Read {
      for i := 0 to |action.targets|
        invariant forall j :: 0 <= j < i && action.targets[j].Some? ==>
                    !InsideAny(action.targets[j].value, scope.protectedPaths)
      {
        if action.targets[i].Some? && InsideAny(action.targets[i].value, scope.protectedPaths) {
          return Deny(ProtectedControllerState);
        }
      }
      return AllowRead;
    }
    if action.kind == UnknownClass || !action.resolved { return Unresolved(action); }
    if action.kind == Child { return Deny(ChildRequiresIdentityPolicy); }
    var ts, authorities := action.targets, [];
    for i := 0 to |ts|
      invariant JudgeTargets(scope, action.kind, facts, ts[..i]) == Allow(authorities)
    {
      assert ts[..i + 1][..i] == ts[..i];
      var verdict := JudgeTarget(scope, action.kind, facts, ts[i]);
      if verdict.Refused? {
        FirstRefusalDecides(scope, action.kind, facts, ts, i + 1);
        return Deny(verdict.reason);
      }
      authorities := authorities + [verdict.authority];
    }
    assert ts[..|ts|] == ts;
    return Allow(authorities);
  }

  lemma {:induction false} FirstRefusalDecides(
    scope: OwnedScope, kind: ActionClass, facts: map<Path, GitFacts>, targets: seq<Option<Path>>, n: nat)
    requires n <= |targets| && !JudgeTargets(scope, kind, facts, targets[..n]).Allow?
    ensures JudgeTargets(scope, kind, facts, targets) == JudgeTargets(scope, kind, facts, targets[..n])
  {
    hide JudgeTarget;
    if n == |targets| {
      assert targets[..n] == targets;
    } else {
      assert targets[..|targets| - 1][..n] == targets[..n];
      FirstRefusalDecides(scope, kind, facts, targets[..|targets| - 1], n);
    }
  }
}
