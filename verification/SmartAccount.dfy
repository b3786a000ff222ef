/**
 Auth paths of a Smart account: the chain accepts any one of three guards, of which only keysets can be
 signed for. Raw guards are JSON values as they come from the chain, or None for undefined.
 */
module SmartAccount {
  import opened Wrappers
  import opened Seqs
  import opened Terms
  import opened Guards

  datatype GuardKind = KeysetKind | KeysetRefKind | CapabilityKind | UserKind | UnknownKind

  type RawGuard = Option<Json>

  predicate IsString(j: Option<Json>) {
    j.Some? && j.value.Str?
  }

  /** `typeof x === "object" && x !== null`. */
  predicate IsObject(j: Option<Json>) {
    j.Some? && (j.value.Obj? || j.value.Arr?)
  }

  function ClassifyGuardKind(g: RawGuard): GuardKind {
    if g.None? || !g.value.Obj? then UnknownKind
    else
      var o := g.value;
      if IsString(Field(o, "cgName")) && Field(o, "cgArgs").Some? && Field(o, "cgPactId").Some? then CapabilityKind
      else if IsString(Field(o, "fun")) && Field(o, "args").Some? then UserKind
      else if IsObject(Field(o, "keysetref")) || IsObject(Field(o, "keysetRef")) then KeysetRefKind
      else if IsString(Field(o, "pred")) && Field(o, "keys").Some? && Field(o, "keys").value.Arr? then KeysetKind
      else UnknownKind
  }

  /** A key that is not a string is kept as its JSON text, which no codex holds. */
  function KeyOf(j: Json): Term {
    if j.Str? then j.t else Text(j)
  }

  function KeysOf(items: seq<Json>): (ks: seq<Term>) {
    seq(|items|, i requires 0 <= i < |items| => KeyOf(items[i]))
  }

  function PlainText(t: Term): string {
    if t.Lit? then t.text else ""
  }

  function ExtractKeyset(g: RawGuard): Option<Guard> {
    if ClassifyGuardKind(g) != KeysetKind then None
    else
      var ref := Field(g.value, "keysetRef");
      Some(Guard(PlainText(g.value.fields["pred"].t), KeysOf(g.value.fields["keys"].items),
                 if IsString(ref) && ref.value.t != EMPTY then Some(PlainText(ref.value.t)) else None))
  }

  datatype Branch = Branch(kind: GuardKind, keyBased: bool, analysis: Option<GuardAnalysis>)

  datatype AuthPaths = AuthPaths(
    branches: seq<Branch>,
    anyKeyBased: bool,
    firstSatisfied: int,
    firstSignableButUnsatisfied: int)

  predicate KeyBased(g: RawGuard) {
    ClassifyGuardKind(g) == KeysetKind
  }

  /** The guard is a keyset and the held keys reach its threshold. */
  predicate CanSign(g: RawGuard, codex: set<Term>, resolved: map<Term, Term>) {
    KeyBased(g) && Satisfied(ExtractKeyset(g).value, codex, resolved)
  }

  function Signable(gs: seq<RawGuard>, codex: set<Term>, resolved: map<Term, Term>): seq<bool>
    requires |gs| == 3
  {
    [CanSign(gs[0], codex, resolved), CanSign(gs[1], codex, resolved), CanSign(gs[2], codex, resolved)]
  }

  function Missing(gs: seq<RawGuard>, codex: set<Term>, resolved: map<Term, Term>): seq<bool>
    requires |gs| == 3
  {
    [KeyBased(gs[0]) && !CanSign(gs[0], codex, resolved),
     KeyBased(gs[1]) && !CanSign(gs[1], codex, resolved),
     KeyBased(gs[2]) && !CanSign(gs[2], codex, resolved)]
  }

  /** The index of the first true entry, or -1. */
  predicate IsFirst(k: int, bs: seq<bool>) {
    if 0 <= k < |bs| then bs[k] && true !in bs[..k] else k == -1 && true !in bs
  }

  /** What the summary says of the three guards. */
  ghost predicate Summarises(p: AuthPaths, gs: seq<RawGuard>, codex: set<Term>, resolved: map<Term, Term>)
    requires |gs| == 3
  {
    && |p.branches| == 3
    && (forall i :: 0 <= i < 3 ==> BranchOk(p.branches[i], gs[i], codex, resolved))
    && (p.anyKeyBased <==> KeyBased(gs[0]) || KeyBased(gs[1]) || KeyBased(gs[2]))
    && IsFirst(p.firstSatisfied, Signable(gs, codex, resolved))
    && IsFirst(p.firstSignableButUnsatisfied, Missing(gs, codex, resolved))
  }

  predicate BranchOk(b: Branch, g: RawGuard, codex: set<Term>, resolved: map<Term, Term>) {
    && b.kind == ClassifyGuardKind(g)
    && b.keyBased == KeyBased(g) == b.analysis.Some?
    && (b.analysis.Some? ==> b.analysis.value.satisfied == CanSign(g, codex, resolved))
  }

  method BuildBranch(g: RawGuard, codex: set<Term>, resolved: map<Term, Term>) returns (b: Branch)
    ensures BranchOk(b, g, codex, resolved)
  {
    var kind := ClassifyGuardKind(g);
    var analysis := None;
    if kind == KeysetKind {
      var a := AnalyzeGuard(ExtractKeyset(g).value, codex, resolved);
      analysis := Some(a);
    }
    b := Branch(kind, kind == KeysetKind, analysis);
  }

  predicate Reached(b: Branch) {
    b.analysis.Some? && b.analysis.value.satisfied
  }

  predicate Short(b: Branch) {
    b.keyBased && b.analysis.Some? && !b.analysis.value.satisfied
  }

  /** The scans over the branches find what the summary promises of the guards. */
  lemma ScansSummarise(p: AuthPaths, gs: seq<RawGuard>, codex: set<Term>, resolved: map<Term, Term>)
    requires |gs| == 3 && |p.branches| == 3
    requires forall i :: 0 <= i < 3 ==> BranchOk(p.branches[i], gs[i], codex, resolved)
    requires p.anyKeyBased <==> p.branches[0].keyBased || p.branches[1].keyBased || p.branches[2].keyBased
    requires IsFirst(p.firstSatisfied, [Reached(p.branches[0]), Reached(p.branches[1]), Reached(p.branches[2])])
    requires IsFirst(p.firstSignableButUnsatisfied, [Short(p.branches[0]), Short(p.branches[1]), Short(p.branches[2])])
    ensures Summarises(p, gs, codex, resolved)
  {
    assert forall i :: 0 <= i < 3 ==> Reached(p.branches[i]) == CanSign(gs[i], codex, resolved);
    assert forall i :: 0 <= i < 3 ==>
        Short(p.branches[i]) == (KeyBased(gs[i]) && !CanSign(gs[i], codex, resolved));
  }

  method AnalyzeSmartAccountAuthPaths(gs: seq<RawGuard>, codex: set<Term>, resolved: map<Term, Term>)
    returns (p: AuthPaths)
    requires |gs| == 3
    ensures Summarises(p, gs, codex, resolved)
  {
    var b0 := BuildBranch(gs[0], codex, resolved);
    var b1 := BuildBranch(gs[1], codex, resolved);
    var b2 := BuildBranch(gs[2], codex, resolved);
    var branches := [b0, b1, b2];
    var firstSatisfied := ScanReached(branches);
    var firstMissing := ScanShort(branches);
    p := AuthPaths(branches, b0.keyBased || b1.keyBased || b2.keyBased, firstSatisfied, firstMissing);
    ScansSummarise(p, gs, codex, resolved);
  }

  method ScanReached(branches: seq<Branch>) returns (first: int)
    requires |branches| == 3
    ensures IsFirst(first, [Reached(branches[0]), Reached(branches[1]), Reached(branches[2])])
  {
    first := -1;
    for i := 0 to |branches|
      invariant first == -1
      invariant forall j :: 0 <= j < i ==> !Reached(branches[j])
    {
      if branches[i].analysis.Some? && branches[i].analysis.value.satisfied {
        first := i;
        break;
      }
    }
  }

  method ScanShort(branches: seq<Branch>) returns (first: int)
    requires |branches| == 3
    ensures IsFirst(first, [Short(branches[0]), Short(branches[1]), Short(branches[2])])
  {
    first := -1;
    for i := 0 to |branches|
      invariant first == -1
      invariant forall j :: 0 <= j < i ==> !Short(branches[j])
    {
      if branches[i].keyBased && branches[i].analysis.Some? && !branches[i].analysis.value.satisfied {
        first := i;
        break;
      }
    }
  }

  // ---------- The four states a caller branches on ----------

  predicate StateA(p: AuthPaths) { p.firstSatisfied >= 0 }

  predicate StateB(p: AuthPaths) { p.firstSatisfied == -1 && p.anyKeyBased }

  predicate StateC(p: AuthPaths) {
    p.firstSatisfied == -1 && !p.anyKeyBased && exists b <- p.branches :: b.kind != UnknownKind
  }

  predicate StateD(p: AuthPaths) { forall b <- p.branches :: b.kind == UnknownKind }

  /** Every summary is in exactly one of the four states; it is in A exactly when some keyset's threshold is met
      by the held keys; and in B there is always a keyset to ask the missing keys for. */
  lemma StatesPartition(p: AuthPaths, gs: seq<RawGuard>, codex: set<Term>, resolved: map<Term, Term>)
    requires |gs| == 3 && Summarises(p, gs, codex, resolved)
    ensures One(StateA(p)) + One(StateB(p)) + One(StateC(p)) + One(StateD(p)) == 1
    ensures StateA(p) <==>
      CanSign(gs[0], codex, resolved) || CanSign(gs[1], codex, resolved) || CanSign(gs[2], codex, resolved)
    ensures StateB(p) ==> 0 <= p.firstSignableButUnsatisfied < 3 && KeyBased(gs[p.firstSignableButUnsatisfied])
  {
    FirstOf(p.firstSatisfied, Signable(gs, codex, resolved));
    FirstOf(p.firstSignableButUnsatisfied, Missing(gs, codex, resolved));
    AnyKeyBased(p, gs, codex, resolved);
    OneState(p);
  }

  lemma AnyKeyBased(p: AuthPaths, gs: seq<RawGuard>, codex: set<Term>, resolved: map<Term, Term>)
    requires |gs| == 3 && Summarises(p, gs, codex, resolved)
    ensures p.anyKeyBased ==> exists b <- p.branches :: b.kind != UnknownKind
  {
    if p.anyKeyBased {
      var i := if KeyBased(gs[0]) then 0 else if KeyBased(gs[1]) then 1 else 2;
      assert BranchOk(p.branches[i], gs[i], codex, resolved);
      assert p.branches[i] in p.branches;
    }
  }

  lemma OneState(p: AuthPaths)
    requires p.firstSatisfied >= -1 && (p.firstSatisfied >= 0 ==> p.anyKeyBased)
    requires p.anyKeyBased ==> exists b <- p.branches :: b.kind != UnknownKind
    ensures One(StateA(p)) + One(StateB(p)) + One(StateC(p)) + One(StateD(p)) == 1
  {
  }

  lemma FirstOf(k: int, bs: seq<bool>)
    requires |bs| == 3 && IsFirst(k, bs)
    ensures if bs[0] || bs[1] || bs[2] then 0 <= k < 3 && bs[k] else k == -1
  {
  }

  /** Holding more keys never leaves state A. */
  lemma StateAMonotone(gs: seq<RawGuard>, p: AuthPaths, codex: set<Term>, resolved: map<Term, Term>,
                       p': AuthPaths, codex': set<Term>, resolved': map<Term, Term>)
    requires |gs| == 3 && Summarises(p, gs, codex, resolved) && Summarises(p', gs, codex', resolved')
    requires forall k :: Held(codex, resolved, k) ==> Held(codex', resolved', k)
    ensures StateA(p) ==> StateA(p')
  {
    if StateA(p) {
      StatesPartition(p, gs, codex, resolved);
      StatesPartition(p', gs, codex', resolved');
      var i := if CanSign(gs[0], codex, resolved) then 0 else if CanSign(gs[1], codex, resolved) then 1 else 2;
      SatisfiedMonotone(ExtractKeyset(gs[i]).value, codex, resolved, codex', resolved');
      assert CanSign(gs[i], codex', resolved');
    }
  }

  // ---------- Guards as the chain spells them ----------

  predicate SaysText(m: map<string, Json>, name: string) {
    name in m && m[name].Str?
  }

  predicate SaysTree(m: map<string, Json>, name: string) {
    name in m && (m[name].Obj? || m[name].Arr?)
  }

  /** Only an object has a kind. It is a capability if it says so, whatever else it says; otherwise a user guard;
      otherwise a keyset reference in either spelling; otherwise a keyset. */
  lemma KindsExactly(m: map<string, Json>, g: RawGuard)
    ensures g.None? || !g.value.Obj? ==> ClassifyGuardKind(g).UnknownKind?
    ensures var kind := ClassifyGuardKind(Some(Obj(m)));
      var capability := SaysText(m, "cgName") && "cgArgs" in m && "cgPactId" in m;
      var user := SaysText(m, "fun") && "args" in m;
      var reference := SaysTree(m, "keysetref") || SaysTree(m, "keysetRef");
      && (kind.CapabilityKind? <==> capability)
      && (kind.UserKind? <==> user && !capability)
      && (kind.KeysetRefKind? <==> reference && !user && !capability)
      && (kind.KeysetKind? <==>
           SaysText(m, "pred") && "keys" in m && m["keys"].Arr? && !reference && !user && !capability)
  {
  }

  function Texts(keys: seq<Term>): (items: seq<Json>)
    ensures |items| == |keys| && forall i :: 0 <= i < |keys| ==> items[i] == Str(keys[i])
  {
    seq(|keys|, i requires 0 <= i < |keys| => Str(keys[i]))
  }

  /** A keyset guard as the chain spells it. */
  function GuardJson(g: Guard): map<string, Json> {
    map["pred" := Str(Lit(g.pred)), "keys" := Arr(Texts(g.keys))]
    + (if g.keysetRef.Some? then map["keysetRef" := Str(Lit(g.keysetRef.value))] else map[])
  }

  lemma KeysetFields(g: Guard)
    ensures var m := GuardJson(g);
      && "cgName" !in m && "fun" !in m && "keysetref" !in m && !SaysTree(m, "keysetRef")
      && "pred" in m && m["pred"] == Str(Lit(g.pred)) && "keys" in m && m["keys"] == Arr(Texts(g.keys))
  {
  }

  lemma KeysetReference(g: Guard)
    ensures Field(Obj(GuardJson(g)), "keysetRef") ==
      match g.keysetRef case None => None case Some(name) => Some(Str(Lit(name)))
  {
  }

  /** A keyset is read back with its predicate, its keys in their order, and its reference unless that is empty; and
      it can be signed for exactly when it is satisfied. */
  lemma KeysetReadBack(g: Guard, codex: set<Term>, resolved: map<Term, Term>)
    ensures ExtractKeyset(Some(Obj(GuardJson(g)))) ==
      Some(if g.keysetRef == Some("") then g.(keysetRef := None) else g)
    ensures CanSign(Some(Obj(GuardJson(g))), codex, resolved) <==> Satisfied(g, codex, resolved)
  {
    var m := GuardJson(g);
    KeysetFields(g);
    KindsExactly(m, None);
    assert ClassifyGuardKind(Some(Obj(m))).KeysetKind?;
    KeysetReference(g);
    assert KeysOf(Texts(g.keys)) == g.keys;
  }
}
