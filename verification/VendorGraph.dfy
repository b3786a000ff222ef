/** What the copy preserves: the file every request denotes, and with it the module graph. */
module VendorGraph {
  import opened Wrappers
  import opened Seqs
  import opened Strings
  import opened VendorRewrite

  const SUBPATHS := ["client", "cryptography-utils", "types", "hd-wallet"]

  function Src(pkg: Path): Path {
    pkg + ["src"]
  }

  function Dst(pkg: Path): Path {
    pkg + ["dist"]
  }

  // ---------- Relocation ----------

  /** The segments never climb above the root that `rel` is relative to. */
  predicate Stays(rel: Path, segs: seq<string>) {
    segs == []
    || (Stays(rel, segs[..|segs| - 1])
        && (segs[|segs| - 1] == ".." ==> Follow(rel, segs[..|segs| - 1]) != []))
  }

  lemma {:induction false} Relocates(root: Path, rel: Path, segs: seq<string>)
    requires Stays(rel, segs)
    ensures Follow(root + rel, segs) == root + Follow(rel, segs)
  {
    if segs != [] {
      Relocates(root, rel, segs[..|segs| - 1]);
      var p := Follow(rel, segs[..|segs| - 1]);
      if segs[|segs| - 1] == ".." {
        assert Up(root + p) == root + Up(p);
      }
    }
  }

  /** The request stays inside the tree when it is followed from the file at `f`. */
  predicate Inside(f: Path, rp: string) {
    Stays(Up(f), Segments(rp))
  }

  lemma ResolvesUnder(root: Path, f: Path, rp: string)
    requires f != [] && Inside(f, rp)
    ensures Resolve(Up(root + f), rp) == root + Resolve(Up(f), rp)
  {
    assert Up(root + f) == root + Up(f);
    Relocates(root, Up(f), Segments(rp));
  }

  // ---------- What a request denotes ----------

  /** Node's lookup, with `.cjs` in the place of the `.js` the sources were written for: the file itself, the file
      with the suffix, the index of the directory. */
  function Denoted(d: Disk, dir: Path, rp: string): Option<Path> {
    var c := Resolve(dir, rp);
    if !DirLike(rp) && c in d.files then Some(c)
    else if !DirLike(rp) && WithSuffix(c, ".cjs") in d.files then Some(WithSuffix(c, ".cjs"))
    else if c in d.dirs && c + ["index.cjs"] in d.files then Some(c + ["index.cjs"])
    else None
  }

  /** No path is both a file and a directory, and no directory is named like a module. */
  predicate Tidy(d: Disk) {
    && (forall p <- d.dirs :: p !in d.files)
    && (forall p <- d.dirs :: p != [] ==> !EndsWith(p[|p| - 1], ".cjs"))
  }

  /** The two branches in which the rewritten request names another file than the bare one: a request for a directory
      next to a module of the same name, and a request for a file without an extension. */
  predicate Misdirected(d: Disk, srcFile: Path, rp: string) {
    var c := Resolve(Up(srcFile), rp);
    if DirLike(rp) then Exists(d, WithSuffix(c, ".cjs")) else c in d.files
  }

  /** From the copy, without any search for extensions, the rewritten request names the copy of the file. */
  ghost predicate NamesCopy(d: Disk, pkg: Path, f: Path, rp: string, target: string) {
    exists g: Path ::
      && Denoted(d, Up(Src(pkg) + f), rp) == Some(Src(pkg) + g)
      && Resolve(Up(Dst(pkg) + f), target) == Dst(pkg) + g
  }

  lemma SuffixUnder(root: Path, c: Path)
    requires c != []
    ensures WithSuffix(root + c, ".cjs") == root + WithSuffix(c, ".cjs")
    ensures EndsWith(WithSuffix(c, ".cjs")[|c| - 1], ".cjs")
  {
  }

  lemma SuffixTail(last: string)
    ensures EndsWith(last + ".cjs", ".cjs") && Plain(last + ".cjs")
  {
    assert (last + ".cjs")[|last|..] == ".cjs";
  }

  lemma FileRequest(dir: Path, rp: string)
    ensures var segs := Segments(rp);
      Resolve(dir, rp + ".cjs") == Follow(dir, segs[..|segs| - 1]) + [segs[|segs| - 1] + ".cjs"]
  {
    var segs := Segments(rp);
    SplitSuffix(rp, ".cjs");
    FollowLast(dir, segs[..|segs| - 1], segs[|segs| - 1] + ".cjs");
    SuffixTail(segs[|segs| - 1]);
  }

  lemma LastPushed(dir: Path, rp: string)
    requires !DirLike(rp)
    ensures var segs := Segments(rp);
      Resolve(dir, rp) == Follow(dir, segs[..|segs| - 1]) + [segs[|segs| - 1]]
  {
  }

  /** A rewritten request names the copy of the file the bare one denoted exactly when it is not misdirected. */
  lemma ResolutionPreservedIff(d: Disk, pkg: Path, f: Path, rp: string, target: string)
    requires Tidy(d) && f != [] && Inside(f, rp)
    requires ResolveRequireTarget(d, Src(pkg) + f, rp) == Some(target)
    ensures NamesCopy(d, pkg, f, rp, target) <==> !Misdirected(d, Src(pkg) + f, rp)
  {
    var c := Resolve(Up(f), rp);
    ResolvesUnder(Src(pkg), f, rp);
    if Exists(d, WithSuffix(Src(pkg) + c, ".cjs")) {
      FileBranch(d, pkg, f, rp);
    } else {
      IndexBranch(d, pkg, f, rp);
    }
  }

  lemma DenotesIndex(d: Disk, dir: Path, rp: string)
    requires Tidy(d)
    requires var c := Resolve(dir, rp);
      !Exists(d, WithSuffix(c, ".cjs")) && c in d.dirs && Exists(d, c + ["index.cjs"])
    ensures Denoted(d, dir, rp) == Some(Resolve(dir, rp) + ["index.cjs"])
  {
    var p := Resolve(dir, rp) + ["index.cjs"];
    assert p[|p| - 1] == "index.cjs" && EndsWith("index.cjs", ".cjs");
  }

  lemma IndexBranch(d: Disk, pkg: Path, f: Path, rp: string)
    requires Tidy(d) && f != [] && Inside(f, rp)
    requires var c := Resolve(Up(Src(pkg) + f), rp);
      !Exists(d, WithSuffix(c, ".cjs")) && c in d.dirs && Exists(d, c + ["index.cjs"])
    ensures NamesCopy(d, pkg, f, rp, DropSlash(rp) + "/index.cjs") && !Misdirected(d, Src(pkg) + f, rp)
  {
    DenotesIndex(d, Up(Src(pkg) + f), rp);
    IndexResolves(Up(Dst(pkg) + f), rp);
    ResolvesUnder(Src(pkg), f, rp);
    ResolvesUnder(Dst(pkg), f, rp);
    var c := Resolve(Up(f), rp);
    Regrouped(Src(pkg), c, ["index.cjs"]);
    Regrouped(Dst(pkg), c, ["index.cjs"]);
  }

  lemma Regrouped(root: Path, c: Path, tail: Path)
    ensures root + c + tail == root + (c + tail)
  {
  }

  lemma FileBranch(d: Disk, pkg: Path, f: Path, rp: string)
    requires Tidy(d) && f != [] && Inside(f, rp)
    requires Exists(d, WithSuffix(Resolve(Up(Src(pkg) + f), rp), ".cjs"))
    ensures NamesCopy(d, pkg, f, rp, rp + ".cjs") <==> !Misdirected(d, Src(pkg) + f, rp)
  {
    var c := Resolve(Up(f), rp);
    ResolvesUnder(Src(pkg), f, rp);
    ResolvesUnder(Dst(pkg), f, rp);
    FileRequest(Up(Dst(pkg) + f), rp);
    var segs := Segments(rp);
    if DirLike(rp) {
      // The request names a file called ".cjs", "..cjs" or "...cjs", never an index.
      assert segs[|segs| - 1] + ".cjs" != "index.cjs";
      NotIndex(d, pkg, f, rp);
    } else {
      LastPushed(Up(Dst(pkg) + f), rp);
      LastPushed(Up(f), rp);
      SuffixUnder(Src(pkg), c);
      SuffixUnder(Dst(pkg), c);
      assert WithSuffix(Src(pkg) + c, ".cjs") in d.files;
      assert Resolve(Up(Dst(pkg) + f), rp + ".cjs") == Dst(pkg) + WithSuffix(c, ".cjs");
    }
  }

  lemma DenotesNamedIndex(d: Disk, dir: Path, rp: string)
    requires DirLike(rp) && Denoted(d, dir, rp).Some?
    ensures var p := Denoted(d, dir, rp).value;
      p != [] && p[|p| - 1] == "index.cjs"
  {
  }

  lemma NotIndex(d: Disk, pkg: Path, f: Path, rp: string)
    requires DirLike(rp)
    ensures !NamesCopy(d, pkg, f, rp, rp + ".cjs")
  {
    FileRequest(Up(Dst(pkg) + f), rp);
    var segs := Segments(rp);
    var named := Resolve(Up(Dst(pkg) + f), rp + ".cjs");
    assert named[|named| - 1] == segs[|segs| - 1] + ".cjs" != "index.cjs";
    if Denoted(d, Up(Src(pkg) + f), rp).Some? {
      DenotesNamedIndex(d, Up(Src(pkg) + f), rp);
    }
    forall g: Path | Denoted(d, Up(Src(pkg) + f), rp) == Some(Src(pkg) + g)
      ensures named != Dst(pkg) + g
    {
      SameLast(pkg, g);
    }
  }

  lemma SameLast(pkg: Path, g: Path)
    ensures var p, q := Src(pkg) + g, Dst(pkg) + g;
      if g == [] then p[|p| - 1] == "src" else q[|q| - 1] == p[|p| - 1]
  {
    assert g == [] ==> Src(pkg) + g == Src(pkg);
  }

  const CLIENT: Path := ["src", "client"]
  const REQUIRING: Path := CLIENT + ["a.cjs"]
  const X: Path := CLIENT + ["x"]
  const X_CJS: Path := CLIENT + ["x.cjs"]
  const X_INDEX: Path := X + ["index.cjs"]

  lemma SegmentsOfX()
    ensures Segments("./x") == [".", "x"] && Segments("./x/") == [".", "x", ""]
  {
    SplitWhole("x", '/');
    SplitSlash(".", "x");
    SplitWhole(".", '/');
    assert "." + "/" + "x" == "./x";
    SplitSlash("./x", "");
    assert "./x" + "/" + "" == "./x/";
  }

  lemma ResolvesX(dir: Path)
    ensures Resolve(dir, "./x") == Resolve(dir, "./x/") == dir + ["x"]
    ensures !DirLike("./x") && DirLike("./x/")
  {
    SegmentsOfX();
    FollowLast(dir, [], ".");
    FollowLast(dir, ["."], "x");
    FollowLast(dir, [".", "x"], "");
    assert [] + ["."] == ["."] && ["."] + ["x"] == [".", "x"] && [".", "x"] + [""] == [".", "x", ""];
  }

  lemma SuffixOfX()
    ensures Up(REQUIRING) == CLIENT && WithSuffix(X, ".cjs") == X_CJS
    ensures !HasExtension("./x") && !HasExtension("./x/")
  {
    assert "x" + ".cjs" == "x.cjs";
    assert X[..|X| - 1] == CLIENT;
    NoExtension("./x");
    NoExtension("./x/");
  }

  /** With the module `x.cjs` beside it, both a request for the directory `x` and one for the file `x` are rewritten
      by appending the suffix. */
  lemma BesideModule(d: Disk, rp: string)
    requires rp == "./x/" || rp == "./x"
    requires X_CJS in d.files
    ensures ResolveRequireTarget(d, REQUIRING, rp) == Some(rp + ".cjs")
    ensures Misdirected(d, REQUIRING, rp) <==> rp == "./x/" || X in d.files
  {
    ResolvesX(CLIENT);
    SuffixOfX();
  }

  lemma InsideClient(rp: string)
    requires rp == "./x/" || rp == "./x"
    ensures Inside(["client", "a.cjs"], rp) && Src([]) + ["client", "a.cjs"] == REQUIRING
  {
    SegmentsOfX();
    var segs := Segments(rp);
    assert segs[..1] == ["."] && segs[..1][..0] == [] && segs[..2] == [".", "x"] && segs[..2][..1] == ["."];
    assert Stays(["client"], []);
    assert Stays(["client"], ["."]);
    assert Stays(["client"], [".", "x"]);
    assert Stays(["client"], segs);
  }

  const DIRECTORY_BESIDE: Disk := Disk(map[REQUIRING := "", X_CJS := "", X_INDEX := ""], {X})

  lemma DirectoryBeside()
    ensures Tidy(DIRECTORY_BESIDE) && X !in DIRECTORY_BESIDE.files
  {
    assert X[2] == "x" && X_CJS[2] == "x.cjs" && REQUIRING[2] == "a.cjs";
    assert !EndsWith("x", ".cjs");
  }

  lemma IndexOfX()
    ensures Denoted(DIRECTORY_BESIDE, CLIENT, "./x/") == Some(X_INDEX)
  {
    ResolvesX(CLIENT);
  }

  /** The request `./x/` denotes the index of the directory, but is rewritten to name a file called `.cjs`. */
  lemma DirectoryBesideModule()
    ensures var d := DIRECTORY_BESIDE;
      && Tidy(d) && ResolveRequireTarget(d, REQUIRING, "./x/") == Some("./x/" + ".cjs")
      && Denoted(d, CLIENT, "./x/") == Some(X_INDEX)
      && !NamesCopy(d, [], ["client", "a.cjs"], "./x/", "./x/" + ".cjs")
  {
    DirectoryBeside();
    IndexOfX();
    BesideModule(DIRECTORY_BESIDE, "./x/");
    InsideClient("./x/");
    ResolutionPreservedIff(DIRECTORY_BESIDE, [], ["client", "a.cjs"], "./x/", "./x/" + ".cjs");
  }

  /** The request `./x` denotes the file without an extension, but is rewritten to name the module. */
  lemma FileWithoutExtension()
    ensures var d := Disk(map[REQUIRING := "", X_CJS := "", X := ""], {});
      && Tidy(d) && ResolveRequireTarget(d, REQUIRING, "./x") == Some("./x" + ".cjs")
      && Denoted(d, CLIENT, "./x") == Some(X)
      && !NamesCopy(d, [], ["client", "a.cjs"], "./x", "./x" + ".cjs")
  {
    var d := Disk(map[REQUIRING := "", X_CJS := "", X := ""], {});
    ResolvesX(CLIENT);
    BesideModule(d, "./x");
    InsideClient("./x");
    ResolutionPreservedIff(d, [], ["client", "a.cjs"], "./x", "./x" + ".cjs");
  }

  // ---------- The copy ----------

  predicate IsModule(p: Path) {
    p != [] && EndsWith(p[|p| - 1], ".cjs")
  }

  predicate IsVendored(p: Path) {
    IsModule(p) || (p != [] && EndsWith(p[|p| - 1], ".d.cts"))
  }

  /** The files that `walk` collects below a directory. */
  function Vendored(d: Disk, dir: Path): set<Path> {
    set p | p in d.files && dir < p && IsVendored(p)
  }

  /** Every path lies in a directory of the tree. */
  predicate Rooted(d: Disk) {
    && (forall p <- d.files :: p != [] && Up(p) in d.dirs)
    && (forall p <- d.dirs :: p != [] ==> Up(p) in d.dirs)
    && (forall p <- d.dirs :: p !in d.files)
  }

  function Below(d: Disk, dir: Path): set<Path> {
    set p | p in d.files.Keys + d.dirs && dir < p
  }

  function Entries(d: Disk, dir: Path): set<Path> {
    set p | p in d.files.Keys + d.dirs && dir < p && |p| == |dir| + 1
  }

  /** The entry of a directory that a path below it goes through. */
  function Through(dir: Path, p: Path): Path
    requires dir < p
  {
    p[..|dir| + 1]
  }

  lemma {:induction false} EntryExists(d: Disk, dir: Path, p: Path)
    requires Rooted(d) && (p in d.files || p in d.dirs) && dir < p
    ensures Through(dir, p) in Entries(d, dir)
    ensures Through(dir, p) != p ==> Through(dir, p) in d.dirs
    decreases |p|
  {
    if |p| > |dir| + 1 {
      assert dir < Up(p);
      EntryExists(d, dir, Up(p));
      assert Through(dir, Up(p)) == Through(dir, p);
    } else {
      assert Through(dir, p) == p;
    }
  }

  /** The vendored files below a directory whose entry is among the given ones. */
  function VendoredVia(d: Disk, dir: Path, entries: set<Path>): set<Path> {
    set p | p in d.files && dir < p && IsVendored(p) && Through(dir, p) in entries
  }

  /** The sequence holds the elements of the set, each once. */
  predicate Lists(found: seq<Path>, ps: set<Path>) {
    Elements(found) == ps && |found| == |ps|
  }

  lemma ViaOne(d: Disk, dir: Path, e: Path)
    requires Rooted(d) && e in Entries(d, dir)
    ensures e in d.dirs ==> VendoredVia(d, dir, {e}) == Vendored(d, e)
    ensures e !in d.dirs ==> VendoredVia(d, dir, {e}) == if IsVendored(e) then {e} else {}
  {
    forall p | p in d.files && dir < p && Through(dir, p) == e
      ensures p == e || e < p
      ensures e !in d.dirs ==> p == e
    {
      EntryExists(d, dir, p);
    }
    forall p | e < p ensures dir < p && Through(dir, p) == e {
    }
    assert Through(dir, e) == e;
  }

  /** The recursive walk finds every vendored file below the directory, each once. */
  method Walk(d: Disk, dir: Path) returns (found: seq<Path>)
    requires Rooted(d)
    ensures Lists(found, Vendored(d, dir))
    decreases |Below(d, dir)|, 1
  {
    found := [];
    var entries, done := Entries(d, dir), {};
    while entries != {}
      invariant entries + done == Entries(d, dir) && entries !! done
      invariant Lists(found, VendoredVia(d, dir, done))
      decreases |entries|
    {
      var e :| e in entries;
      var more := WalkEntry(d, dir, e);
      ViaStep(d, dir, done, e, found, more);
      found := found + more;
      entries, done := entries - {e}, done + {e};
    }
    AllVia(d, dir);
  }

  method WalkEntry(d: Disk, dir: Path, e: Path) returns (more: seq<Path>)
    requires Rooted(d) && e in Entries(d, dir)
    ensures Lists(more, VendoredVia(d, dir, {e}))
    decreases |Below(d, dir)|, 0
  {
    ViaOne(d, dir, e);
    more := [];
    if e in d.dirs {
      Shrinks(d, dir, e);
      more := Walk(d, e);
    } else if IsVendored(e) {
      more := [e];
    }
  }

  lemma ViaStep(d: Disk, dir: Path, done: set<Path>, e: Path, found: seq<Path>, more: seq<Path>)
    requires e !in done
    requires Lists(found, VendoredVia(d, dir, done)) && Lists(more, VendoredVia(d, dir, {e}))
    ensures Lists(found + more, VendoredVia(d, dir, done + {e}))
  {
    var a, b := VendoredVia(d, dir, done), VendoredVia(d, dir, {e});
    assert a !! b;
    assert VendoredVia(d, dir, done + {e}) == a + b;
    assert Elements(found + more) == Elements(found) + Elements(more);
  }

  lemma AllVia(d: Disk, dir: Path)
    requires Rooted(d)
    ensures VendoredVia(d, dir, Entries(d, dir)) == Vendored(d, dir)
  {
    forall p | p in Vendored(d, dir) ensures p in VendoredVia(d, dir, Entries(d, dir)) {
      EntryExists(d, dir, p);
    }
  }

  lemma Shrinks(d: Disk, dir: Path, e: Path)
    requires e in Entries(d, dir)
    ensures |Below(d, e)| < |Below(d, dir)|
  {
    assert Below(d, e) <= Below(d, dir) - {e};
    SubsetSize(Below(d, e), Below(d, dir) - {e});
  }

  /** The paths, relative to the two roots, of the files that are copied. */
  predicate IsCopied(d: Disk, pkg: Path, rel: Path) {
    |rel| >= 2 && rel[0] in SUBPATHS && Src(pkg) + rel in d.files && IsVendored(rel)
  }

  /** What a copied file holds. */
  function CopyOf(d: Disk, pkg: Path, rel: Path): string
    requires Src(pkg) + rel in d.files
  {
    var content := d.files[Src(pkg) + rel];
    if IsModule(rel) then Rewrite(d, Src(pkg) + rel, content) else content
  }

  /** Copied are the files below four directories whose names end in ".cjs" or ".d.cts". */
  lemma CopiedIff(d: Disk, pkg: Path, rel: Path)
    ensures IsCopied(d, pkg, rel) <==>
      && |rel| >= 2 && pkg + ["src"] + rel in d.files
      && (rel[0] == "client" || rel[0] == "cryptography-utils" || rel[0] == "types" || rel[0] == "hd-wallet")
      && exists base :: rel[|rel| - 1] == base + ".cjs" || rel[|rel| - 1] == base + ".d.cts"
  {
    assert SUBPATHS[0] == "client" && SUBPATHS[1] == "cryptography-utils";
    assert SUBPATHS[2] == "types" && SUBPATHS[3] == "hd-wallet";
    if |rel| >= 2 {
      EndsWithIff(rel[|rel| - 1], ".cjs");
      EndsWithIff(rel[|rel| - 1], ".d.cts");
    }
  }

  /** Only modules are rewritten: declarations are copied as they are. */
  lemma CopyExactly(d: Disk, pkg: Path, rel: Path)
    requires IsCopied(d, pkg, rel)
    ensures var name, content := rel[|rel| - 1], d.files[pkg + ["src"] + rel];
      CopyOf(d, pkg, rel) ==
        if |name| >= 4 && name[|name| - 4..] == ".cjs" then Rewrite(d, pkg + ["src"] + rel, content) else content
  {
  }

  ghost predicate IsDistribution(d: Disk, pkg: Path, dist: map<Path, string>) {
    && (forall rel :: rel in dist <==> IsCopied(d, pkg, rel))
    && (forall rel <- dist :: dist[rel] == CopyOf(d, pkg, rel))
  }

  lemma CopiedBelow(d: Disk, pkg: Path, sub: string, rel: Path)
    requires sub in SUBPATHS
    ensures Src(pkg) + rel in Vendored(d, Src(pkg) + [sub]) <==> IsCopied(d, pkg, rel) && rel[0] == sub
  {
    var p, dir := Src(pkg) + rel, Src(pkg) + [sub];
    if |rel| >= 2 {
      assert p[|p| - 1] == rel[|rel| - 1] && p[|pkg| + 1] == rel[0];
      assert p[..|dir|] == Src(pkg) + [rel[0]];
      assert dir[|pkg| + 1] == sub;
      assert dir < p <==> rel[0] == sub;
    }
  }

  lemma HasParent(d: Disk, dir: Path, p: Path)
    requires Rooted(d) && dir != [] && p in d.files && dir < p
    ensures Exists(d, dir)
  {
    assert Up(dir) < p && Through(Up(dir), p) == dir;
    EntryExists(d, Up(dir), p);
  }

  lemma NothingBelow(d: Disk, dir: Path)
    requires Rooted(d) && !Exists(d, dir) && dir != []
    ensures Vendored(d, dir) == {}
  {
    if p :| p in Vendored(d, dir) {
      HasParent(d, dir, p);
      assert false;
    }
  }

  /** `main`: the distribution holds exactly the vendored files of the subtrees, modules rewritten and declarations
      as they are. Its keys are relative to the distribution's root. */
  method CopyVendorFiles(d: Disk, pkg: Path) returns (dist: map<Path, string>)
    requires Rooted(d) && forall sub <- SUBPATHS :: Src(pkg) + [sub] !in d.files
    ensures IsDistribution(d, pkg, dist)
  {
    dist := map[];
    for i := 0 to |SUBPATHS|
      invariant forall rel :: rel in dist <==> IsCopied(d, pkg, rel) && rel[0] in SUBPATHS[..i]
      invariant forall rel <- dist :: dist[rel] == CopyOf(d, pkg, rel)
    {
      var src := Src(pkg) + [SUBPATHS[i]];
      forall rel ensures Src(pkg) + rel in Vendored(d, src) <==> IsCopied(d, pkg, rel) && rel[0] == SUBPATHS[i] {
        CopiedBelow(d, pkg, SUBPATHS[i], rel);
      }
      if !Exists(d, src) {
        NothingBelow(d, src);
        continue;
      }
      var found := Walk(d, src);
      ghost var before := dist;
      dist := CopyAll(d, pkg, src, found, dist);
      forall rel ensures Src(pkg) + rel in found <==> IsCopied(d, pkg, rel) && rel[0] == SUBPATHS[i] {
        assert Src(pkg) + rel in found <==> Src(pkg) + rel in Elements(found);
      }
    }
  }

  method CopyAll(d: Disk, pkg: Path, src: Path, found: seq<Path>, before: map<Path, string>)
    returns (dist: map<Path, string>)
    requires Src(pkg) < src && Elements(found) == Vendored(d, src)
    requires forall rel <- before :: Src(pkg) + rel in d.files && before[rel] == CopyOf(d, pkg, rel)
    ensures forall rel :: rel in dist <==> rel in before || Src(pkg) + rel in found
    ensures forall rel <- dist :: Src(pkg) + rel in d.files && dist[rel] == CopyOf(d, pkg, rel)
  {
    dist := before;
    for j := 0 to |found|
      invariant forall rel :: rel in dist <==> rel in before || Src(pkg) + rel in found[..j]
      invariant forall rel <- dist :: Src(pkg) + rel in d.files && dist[rel] == CopyOf(d, pkg, rel)
    {
      var f := found[j];
      assert f in Elements(found);
      var rel := f[|Src(pkg)|..];
      assert Src(pkg) + rel == f;
      assert f[|f| - 1] == rel[|rel| - 1];
      forall r ensures Src(pkg) + r == f <==> r == rel {
        assert (Src(pkg) + r)[|Src(pkg)|..] == r;
      }
      if EndsWith(f[|f| - 1], ".cjs") {
        var rewritten, _ := CopyAndRewriteCjs(d, f, d.files[f]);
        dist := dist[rel := rewritten];
      } else {
        dist := dist[rel := d.files[f]];
      }
    }
  }

  // ---------- The module graph ----------

  /** A source module requires another. */
  ghost predicate SrcEdge(d: Disk, pkg: Path, f: Path, g: Path) {
    && Src(pkg) + f in d.files
    && exists rp <- Requests(d.files[Src(pkg) + f]) :: Denoted(d, Up(Src(pkg) + f), rp) == Some(Src(pkg) + g)
  }

  /** A distributed module requires another, found without any search for extensions. */
  ghost predicate DistEdge(dist: map<Path, string>, pkg: Path, f: Path, g: Path) {
    && f in dist && g in dist
    && exists rp <- Requests(dist[f]) :: !DirLike(rp) && Resolve(Up(Dst(pkg) + f), rp) == Dst(pkg) + g
  }

  /** The requests of the copied modules stay in the tree and are not misdirected; one that already has an extension
      denotes the very file it names, if it denotes any. */
  ghost predicate Sound(d: Disk, pkg: Path) {
    forall f, rp :: IsCopied(d, pkg, f) && IsModule(f) && rp in Requests(d.files[Src(pkg) + f]) ==>
      SoundRequest(d, pkg, f, rp)
  }

  predicate SoundRequest(d: Disk, pkg: Path, f: Path, rp: string) {
    && Inside(f, rp)
    && if HasExtension(rp)
       then Denoted(d, Up(Src(pkg) + f), rp) in {None, Some(Resolve(Up(Src(pkg) + f), rp))} && !DirLike(rp)
       else ResolveRequireTarget(d, Src(pkg) + f, rp).Some? ==> !Misdirected(d, Src(pkg) + f, rp)
  }

  lemma {:induction false} RequestsAreRelative(s: string)
    ensures forall rp <- Requests(s) :: Relative(rp) && Captured(rp) && '"' !in rp
    decreases |s|
  {
    if s != "" {
      match MatchAt(s)
      case Some(rp) => RequestsAreRelative(s[11 + |rp|..]);
      case None => RequestsAreRelative(s[1..]);
    }
  }

  lemma {:induction false} RenamedIff(d: Disk, src: Path, rps: seq<string>)
    ensures forall rp <- rps :: NewRequest(d, src, rp) in NewRequests(d, src, rps)
    ensures forall n <- NewRequests(d, src, rps) :: exists rp <- rps :: n == NewRequest(d, src, rp)
  {
    if rps != [] {
      RenamedIff(d, src, rps[1..]);
      assert rps == [rps[0]] + rps[1..];
    }
  }

  lemma SuffixedIsFile(rp: string)
    ensures !DirLike(rp + ".cjs")
  {
    SplitSuffix(rp, ".cjs");
    SuffixTail(Segments(rp)[|Segments(rp)| - 1]);
  }

  lemma IndexIsFile(base: string)
    ensures !DirLike(base + "/index.cjs")
  {
    SplitIndex(base);
    assert Plain("index.cjs");
  }

  lemma TargetIsFile(d: Disk, src: Path, rp: string)
    requires ResolveRequireTarget(d, src, rp).Some?
    ensures !DirLike(ResolveRequireTarget(d, src, rp).value)
  {
    SuffixedIsFile(rp);
    IndexIsFile(DropSlash(rp));
  }

  /** One request of a copied module denotes a copied module exactly when the request in the copy names its copy. */
  lemma RequestPreserved(d: Disk, pkg: Path, f: Path, g: Path, rp: string)
    requires Tidy(d) && f != [] && SoundRequest(d, pkg, f, rp) && Relative(rp)
    requires Src(pkg) + g in d.files
    ensures Denoted(d, Up(Src(pkg) + f), rp) == Some(Src(pkg) + g) <==>
      var n := NewRequest(d, Src(pkg) + f, rp);
      !DirLike(n) && Resolve(Up(Dst(pkg) + f), n) == Dst(pkg) + g
  {
    var c := Resolve(Up(f), rp);
    ResolvesUnder(Src(pkg), f, rp);
    ResolvesUnder(Dst(pkg), f, rp);
    assert Src(pkg) + c == Src(pkg) + g <==> c == g by { SameTail(Src(pkg), c, g); }
    assert Dst(pkg) + c == Dst(pkg) + g <==> c == g by { SameTail(Dst(pkg), c, g); }
    var target := ResolveRequireTarget(d, Src(pkg) + f, rp);
    if target.Some? {
      ResolutionPreservedIff(d, pkg, f, rp, target.value);
      TargetIsFile(d, Src(pkg) + f, rp);
      var h: Path :| Denoted(d, Up(Src(pkg) + f), rp) == Some(Src(pkg) + h)
        && Resolve(Up(Dst(pkg) + f), target.value) == Dst(pkg) + h;
      SameTail(Src(pkg), h, g);
      SameTail(Dst(pkg), h, g);
    } else {
      NotRewritten(d, pkg, f, rp);
    }
  }

  lemma SameTail(root: Path, a: Path, b: Path)
    ensures root + a == root + b <==> a == b
  {
    assert (root + a)[|root|..] == a && (root + b)[|root|..] == b;
  }

  /** A request that is left alone denotes either the file it names or nothing. */
  lemma NotRewritten(d: Disk, pkg: Path, f: Path, rp: string)
    requires Tidy(d) && f != [] && SoundRequest(d, pkg, f, rp) && Relative(rp)
    requires ResolveRequireTarget(d, Src(pkg) + f, rp).None?
    ensures var p := Resolve(Up(Src(pkg) + f), rp);
      Denoted(d, Up(Src(pkg) + f), rp) == if !DirLike(rp) && p in d.files then Some(p) else None
  {
    var p := Resolve(Up(Src(pkg) + f), rp);
    var index := p + ["index.cjs"];
    assert HasExtension(rp) && Denoted(d, Up(Src(pkg) + f), rp) == Some(p) ==> p in d.files by {
      if Denoted(d, Up(Src(pkg) + f), rp) == Some(p) {
        assert index != p;
        assert WithSuffix(p, ".cjs") in d.files || index in d.files || p in d.files;
      }
    }
  }

  /** Between copied modules the distribution has exactly the edges of the sources. */
  lemma EdgesPreserved(d: Disk, pkg: Path, dist: map<Path, string>, f: Path, g: Path)
    requires Tidy(d) && Sound(d, pkg) && IsDistribution(d, pkg, dist)
    requires f in dist && IsModule(f) && g in dist
    ensures SrcEdge(d, pkg, f, g) <==> DistEdge(dist, pkg, f, g)
  {
    var src := Src(pkg) + f;
    var content := d.files[src];
    RewriteExact(d, src, content);
    RequestsAreRelative(content);
    RenamedIff(d, src, Requests(content));
    forall rp | rp in Requests(content)
      ensures Denoted(d, Up(src), rp) == Some(Src(pkg) + g) <==>
        var n := NewRequest(d, src, rp);
        !DirLike(n) && Resolve(Up(Dst(pkg) + f), n) == Dst(pkg) + g
    {
      RequestPreserved(d, pkg, f, g, rp);
    }
    assert Requests(dist[f]) == NewRequests(d, src, Requests(content));
  }

  /** A chain of requires. */
  ghost predicate SrcWalk(d: Disk, pkg: Path, fs: seq<Path>) {
    var k := |fs| - 1;
    k < 1 || (SrcWalk(d, pkg, fs[..k]) && SrcEdge(d, pkg, fs[k - 1], fs[k]))
  }

  ghost predicate DistWalk(dist: map<Path, string>, pkg: Path, fs: seq<Path>) {
    var k := |fs| - 1;
    k < 1 || (DistWalk(dist, pkg, fs[..k]) && DistEdge(dist, pkg, fs[k - 1], fs[k]))
  }

  /** Copied modules require only copied modules. */
  ghost predicate Closed(d: Disk, pkg: Path) {
    forall f, g :: IsCopied(d, pkg, f) && IsModule(f) && SrcEdge(d, pkg, f, g) ==> IsCopied(d, pkg, g) && IsModule(g)
  }

  lemma StepPreserved(d: Disk, pkg: Path, dist: map<Path, string>, f: Path, g: Path)
    requires Tidy(d) && Sound(d, pkg) && Closed(d, pkg) && IsDistribution(d, pkg, dist)
    requires f in dist && IsModule(f)
    ensures SrcEdge(d, pkg, f, g) <==> DistEdge(dist, pkg, f, g)
    ensures SrcEdge(d, pkg, f, g) ==> g in dist && IsModule(g)
  {
    if g in dist {
      EdgesPreserved(d, pkg, dist, f, g);
    }
  }

  /** Both graphs agree on the copied modules, which lead only to copied modules. */
  ghost predicate SameSteps(d: Disk, pkg: Path, dist: map<Path, string>) {
    forall f, g :: f in dist && IsModule(f) ==>
      && (SrcEdge(d, pkg, f, g) <==> DistEdge(dist, pkg, f, g))
      && (SrcEdge(d, pkg, f, g) ==> g in dist && IsModule(g))
  }

  lemma LastStep(d: Disk, pkg: Path, dist: map<Path, string>, fs: seq<Path>, front: seq<Path>)
    requires |fs| > 1 && front == fs[..|fs| - 1]
    ensures SrcWalk(d, pkg, fs) <==> SrcWalk(d, pkg, front) && SrcEdge(d, pkg, front[|front| - 1], fs[|fs| - 1])
    ensures DistWalk(dist, pkg, fs) <==>
      DistWalk(dist, pkg, front) && DistEdge(dist, pkg, front[|front| - 1], fs[|fs| - 1])
  {
  }

  lemma SameStep(d: Disk, pkg: Path, dist: map<Path, string>, f: Path, g: Path)
    requires SameSteps(d, pkg, dist) && f in dist && IsModule(f)
    ensures SrcEdge(d, pkg, f, g) <==> DistEdge(dist, pkg, f, g)
    ensures SrcEdge(d, pkg, f, g) ==> g in dist && IsModule(g)
  {
  }

  lemma {:induction false} WalksOf(d: Disk, pkg: Path, dist: map<Path, string>, fs: seq<Path>)
    requires SameSteps(d, pkg, dist) && fs != [] && fs[0] in dist && IsModule(fs[0])
    ensures SrcWalk(d, pkg, fs) <==> DistWalk(dist, pkg, fs)
    ensures SrcWalk(d, pkg, fs) ==> fs[|fs| - 1] in dist && IsModule(fs[|fs| - 1])
  {
    if |fs| > 1 {
      var front := fs[..|fs| - 1];
      LastStep(d, pkg, dist, fs, front);
      WalksOf(d, pkg, dist, front);
      if SrcWalk(d, pkg, front) {
        SameStep(d, pkg, dist, front[|front| - 1], fs[|fs| - 1]);
      }
    }
  }

  /** From any copied entry, the same chains of requires can be followed in the sources and in the distribution, and
      they reach the same modules. */
  lemma WalksPreserved(d: Disk, pkg: Path, dist: map<Path, string>, fs: seq<Path>)
    requires Tidy(d) && Sound(d, pkg) && Closed(d, pkg) && IsDistribution(d, pkg, dist)
    requires fs != [] && fs[0] in dist && IsModule(fs[0])
    ensures SrcWalk(d, pkg, fs) <==> DistWalk(dist, pkg, fs)
    ensures SrcWalk(d, pkg, fs) ==> fs[|fs| - 1] in dist && IsModule(fs[|fs| - 1])
  {
    AllSteps(d, pkg, dist);
    WalksOf(d, pkg, dist, fs);
  }

  lemma AllSteps(d: Disk, pkg: Path, dist: map<Path, string>)
    requires Tidy(d) && Sound(d, pkg) && Closed(d, pkg) && IsDistribution(d, pkg, dist)
    ensures SameSteps(d, pkg, dist)
  {
    forall f, g | f in dist && IsModule(f)
      ensures SrcEdge(d, pkg, f, g) <==> DistEdge(dist, pkg, f, g)
      ensures SrcEdge(d, pkg, f, g) ==> g in dist && IsModule(g)
    {
      StepPreserved(d, pkg, dist, f, g);
    }
  }
}
