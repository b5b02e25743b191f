/**
 * Completion of method and field signatures (`method`, `field` and
 * `matchSignatures`): the owner class is resolved in the workspace first and on
 * the system classpath second, and its member signatures are prefix-filtered
 * and sorted.
 */
module Signatures {
  import opened Wrappers
  import opened Strings
  import opened Streams
  import opened Environment

  datatype MemberKind = Methods | Fields

  /** A method's signature is `name + descriptor`; a field's is `name + " " + type`. */
  function Signature(m: Member, kind: MemberKind): (r: string)
    ensures StartsWith(r, m.name)
    ensures |m.descriptor| <= |r| && r[|r| - |m.descriptor|..] == m.descriptor
    ensures kind == Fields ==> |r| == |m.name| + 1 + |m.descriptor| && r[|m.name|] == ' '
    ensures kind == Methods ==> |r| == |m.name| + |m.descriptor|
  {
    match kind
    case Methods => m.name + m.descriptor
    case Fields => m.name + " " + m.descriptor
  }

  function MembersOf(c: ClassMembers, kind: MemberKind): seq<Member>
  {
    match kind
    case Methods => c.methods
    case Fields => c.fields
  }

  /** The signatures of a class's declared members of one kind, in declaration order. */
  function SignaturesOf(c: ClassMembers, kind: MemberKind): (r: seq<string>)
    ensures |r| == |MembersOf(c, kind)|
  {
    var members := MembersOf(c, kind);
    seq(|members|, i requires 0 <= i < |members| => Signature(members[i], kind))
  }

  /** A string is among a class's signatures exactly when one of its members of that kind formats to it. */
  lemma SignaturesOfMembers(c: ClassMembers, kind: MemberKind, s: string)
    ensures s in SignaturesOf(c, kind) <==> exists m :: m in MembersOf(c, kind) && s == Signature(m, kind)
  {
    var members := MembersOf(c, kind);
    var r := SignaturesOf(c, kind);
    if s in r {
      var i :| 0 <= i < |r| && r[i] == s;
      assert members[i] in members;
    }
    if exists m :: m in members && s == Signature(m, kind) {
      var m :| m in members && s == Signature(m, kind);
      var i :| 0 <= i < |members| && members[i] == m;
      assert r[i] == s;
    }
  }

  /** The name under which the system classpath knows an internal name: `owner.replace('/', '.')`. */
  function DottedName(internalName: string): (r: string)
    ensures |r| == |internalName|
    ensures '/' !in r
    ensures forall i :: 0 <= i < |r| && internalName[i] != '/' ==> r[i] == internalName[i]
  {
    ReplaceChar(internalName, '/', '.')
  }

  /**
   * The members `matchSignatures` completes against: those of the workspace's
   * class of the trimmed owner name if the workspace has one; otherwise those of
   * the system class of the dotted name, if it loads; None for a null owner or an
   * owner neither source knows.
   */
  function ResolveOwner(owner: Option<string>, workspace: Option<Workspace>, runtime: Runtime): (r: Option<ClassMembers>)
    ensures owner.None? ==> r.None?
    ensures r.Some? ==> (workspace.Some? && r.value in workspace.value.readers.Values)
                        || r.value in runtime.classes.Values
  {
    match owner
    case None => None
    case Some(name) =>
      var o := Trim(name);
      if workspace.Some? && o in workspace.value.readers then
        Some(workspace.value.readers[o])
      else if DottedName(o) in runtime.classes then
        Some(runtime.classes[DottedName(o)])
      else
        None
  }

  /** A class the workspace holds is never looked up on the classpath, whatever the classpath holds. */
  lemma WorkspaceTakesPrecedence(owner: string, w: Workspace, runtime: Runtime)
    requires Trim(owner) in w.readers
    ensures ResolveOwner(Some(owner), Some(w), runtime) == Some(w.readers[Trim(owner)])
  {
  }

  /** Without a workspace, or when it lacks the owner, the dotted owner name is looked up on the classpath. */
  lemma RuntimeFallback(owner: string, workspace: Option<Workspace>, runtime: Runtime)
    requires workspace.None? || Trim(owner) !in workspace.value.readers
    ensures ResolveOwner(Some(owner), workspace, runtime) ==
            if DottedName(Trim(owner)) in runtime.classes then Some(runtime.classes[DottedName(Trim(owner))]) else None
  {
  }

  /**
   * `matchSignatures`: nothing when the owner does not resolve; otherwise the
   * owner's signatures of the given kind that start with `part` (untrimmed), each
   * as often as the owner declares it, in natural order.
   */
  function MatchSignatures(owner: Option<string>, part: string, workspace: Option<Workspace>, runtime: Runtime,
                           kind: MemberKind): (r: seq<string>)
    ensures ResolveOwner(owner, workspace, runtime).None? ==> r == []
    ensures Sorted(r)
    ensures ResolveOwner(owner, workspace, runtime).Some? ==>
              var sigs := SignaturesOf(ResolveOwner(owner, workspace, runtime).value, kind);
              forall s :: multiset(r)[s] == if StartsWith(s, part) then multiset(sigs)[s] else 0
  {
    match ResolveOwner(owner, workspace, runtime)
    case None => []
    case Some(c) => Sort(Filter(SignaturesOf(c, kind), s => StartsWith(s, part)))
  }

  /** Every completion starts with `part` and is the signature of a member the resolved owner declares. */
  lemma CompletionsAreSignatures(owner: Option<string>, part: string, workspace: Option<Workspace>, runtime: Runtime,
                                 kind: MemberKind, s: string)
    requires s in MatchSignatures(owner, part, workspace, runtime, kind)
    ensures ResolveOwner(owner, workspace, runtime).Some?
    ensures StartsWith(s, part)
    ensures exists m :: m in MembersOf(ResolveOwner(owner, workspace, runtime).value, kind) && s == Signature(m, kind)
  {
    var r := MatchSignatures(owner, part, workspace, runtime, kind);
    assert s in multiset(r);
    SignaturesOfMembers(ResolveOwner(owner, workspace, runtime).value, kind, s);
  }

  /** `method`: completes on `name + descriptor` of the owner's methods. */
  function Method(owner: Option<string>, part: string, workspace: Option<Workspace>, runtime: Runtime): (r: seq<string>)
    ensures Sorted(r)
    ensures forall s :: s in r ==> StartsWith(s, part)
  {
    var r := MatchSignatures(owner, part, workspace, runtime, Methods);
    forall s | s in r
      ensures StartsWith(s, part)
    {
      CompletionsAreSignatures(owner, part, workspace, runtime, Methods, s);
    }
    r
  }

  /** `field`: completes on `name + " " + type` of the owner's fields. */
  function Field(owner: Option<string>, part: string, workspace: Option<Workspace>, runtime: Runtime): (r: seq<string>)
    ensures Sorted(r)
    ensures forall s :: s in r ==> StartsWith(s, part)
  {
    var r := MatchSignatures(owner, part, workspace, runtime, Fields);
    forall s | s in r
      ensures StartsWith(s, part)
    {
      CompletionsAreSignatures(owner, part, workspace, runtime, Fields, s);
    }
    r
  }

  /** With no owner in the parse state, or an owner no source knows, there is nothing to complete. */
  lemma UnresolvedOwnerCompletesNothing(owner: Option<string>, part: string, workspace: Option<Workspace>,
                                        runtime: Runtime)
    requires owner.Some? ==>
               (workspace.None? || Trim(owner.value) !in workspace.value.readers)
               && DottedName(Trim(owner.value)) !in runtime.classes
    ensures Method(owner, part, workspace, runtime) == []
    ensures Field(owner, part, workspace, runtime) == []
  {
  }

  /**
   * When both the workspace and the classpath know the owner, the completions come
   * from the workspace's class: they are the same as with any other classpath.
   */
  lemma WorkspaceShadowsRuntime(owner: string, part: string, w: Workspace, runtime: Runtime, other: Runtime,
                                kind: MemberKind)
    requires Trim(owner) in w.readers
    ensures MatchSignatures(Some(owner), part, Some(w), runtime, kind)
            == MatchSignatures(Some(owner), part, Some(w), other, kind)
  {
  }

  lemma SortedPairExample()
    ensures Sorted(["a()V", "z()V"])
  {
    var p := ["a()V", "z()V"];
    assert p[0][0] == 'a' && p[1][0] == 'z';
    assert Less(p[0], p[1]);
  }

  /** Completing on the empty string offers every signature of the resolved owner. */
  lemma EmptyPartOffersAll(owner: Option<string>, workspace: Option<Workspace>, runtime: Runtime, kind: MemberKind,
                           c: ClassMembers)
    requires ResolveOwner(owner, workspace, runtime) == Some(c)
    ensures multiset(MatchSignatures(owner, "", workspace, runtime, kind)) == multiset(SignaturesOf(c, kind))
  {
    var r := MatchSignatures(owner, "", workspace, runtime, kind);
    forall x
      ensures multiset(r)[x] == multiset(SignaturesOf(c, kind))[x]
    {
      assert StartsWith(x, "");
    }
  }

  /** The methods `z()V` and `a()V`, declared in that order, of the example class `a/B`. */
  function ExampleMembers(): (c: ClassMembers)
    ensures SignaturesOf(c, Methods) == ["z()V", "a()V"]
  {
    var c := ClassMembers([Member("z", "()V"), Member("a", "()V")], []);
    var r := SignaturesOf(c, Methods);
    assert r[0] == "z" + "()V" == "z()V";
    assert r[1] == "a" + "()V" == "a()V";
    assert r == [r[0], r[1]];
    c
  }

  /** A workspace holding `a/B` resolves the owner `a/B` to its own class, whatever the classpath holds. */
  lemma ExampleResolves(runtime: Runtime)
    ensures ResolveOwner(Some("a/B"), Some(Workspace({"a/B"}, map["a/B" := ExampleMembers()])), runtime)
            == Some(ExampleMembers())
  {
    assert Trim("a/B") == "a/B" by {
      TrimPadding([], "a/B", []);
      assert [] + "a/B" + [] == "a/B";
    }
    WorkspaceTakesPrecedence("a/B", Workspace({"a/B"}, map["a/B" := ExampleMembers()]), runtime);
  }

  /**
   * Unordered members come back sorted: the owner `a/B`, declaring the methods
   * `z()V` and `a()V`, completes on `""` to `a()V`, `z()V`, whatever the
   * classpath holds.
   */
  lemma SortExample(runtime: Runtime)
    ensures Method(Some("a/B"), "", Some(Workspace({"a/B"}, map["a/B" := ExampleMembers()])), runtime)
            == ["a()V", "z()V"]
  {
    var w := Workspace({"a/B"}, map["a/B" := ExampleMembers()]);
    var r := MatchSignatures(Some("a/B"), "", Some(w), runtime, Methods);
    assert multiset(r) == multiset(["a()V", "z()V"]) by {
      ExampleResolves(runtime);
      EmptyPartOffersAll(Some("a/B"), Some(w), runtime, Methods, ExampleMembers());
    }
    assert r == ["a()V", "z()V"] by {
      SortedPairExample();
      SortedUnique(r, ["a()V", "z()V"]);
    }
  }
}
