/**
 The vendoring script: source files are copied to the distribution, and in every copied module the bare relative
 requires get the suffix of the file they denote. The disk is a finite tree of absolute paths.
 */
module VendorRewrite {
  import opened Wrappers
  import opened Strings

  type Path = seq<string>

  datatype Disk = Disk(files: map<Path, string>, dirs: set<Path>)

  predicate Exists(d: Disk, p: Path) {
    p in d.files || p in d.dirs
  }

  function EndsWith(s: string, suffix: string): bool {
    |s| >= |suffix| && s[|s| - |suffix|..] == suffix
  }

  // ---------- Paths ----------

  function Segments(rp: string): (segs: seq<string>)
    ensures segs != []
  {
    Split(rp, '/')
  }

  function Up(p: Path): Path {
    if p == [] then [] else p[..|p| - 1]
  }

  function Step(p: Path, seg: string): Path {
    if seg == "" || seg == "." then p else if seg == ".." then Up(p) else p + [seg]
  }

  function Follow(p: Path, segs: seq<string>): Path {
    if segs == [] then p else Step(Follow(p, segs[..|segs| - 1]), segs[|segs| - 1])
  }

  /** `path.resolve(dir, rp)`. */
  function Resolve(dir: Path, rp: string): Path {
    Follow(dir, Segments(rp))
  }

  /** `candidate + ".cjs"`. */
  function WithSuffix(p: Path, suffix: string): Path {
    if p == [] then [suffix] else p[..|p| - 1] + [p[|p| - 1] + suffix]
  }

  predicate Plain(seg: string) {
    seg != "" && seg != "." && seg != ".."
  }

  /** Requests that end in a slash or a dot segment name a directory. */
  predicate DirLike(rp: string) {
    var segs := Segments(rp);
    !Plain(segs[|segs| - 1])
  }

  // ---------- resolveRequireTarget ----------

  predicate Relative(rp: string) {
    "./" <= rp || "../" <= rp
  }

  predicate HasExtension(rp: string) {
    || EndsWith(rp, ".cjs") || EndsWith(rp, ".json") || EndsWith(rp, ".node")
    || EndsWith(rp, ".js") || EndsWith(rp, ".mjs")
  }

  function DropSlash(rp: string): string {
    if EndsWith(rp, "/") then rp[..|rp| - 1] else rp
  }

  /** The rewritten path, or None if it is to be left as it is. */
  function ResolveRequireTarget(d: Disk, srcFile: Path, rp: string): Option<string> {
    if !Relative(rp) || HasExtension(rp) then None
    else
      var candidate := Resolve(Up(srcFile), rp);
      if Exists(d, WithSuffix(candidate, ".cjs")) then Some(rp + ".cjs")
      else if candidate in d.dirs && Exists(d, candidate + ["index.cjs"]) then Some(DropSlash(rp) + "/index.cjs")
      else None
  }

  /** The request as it stands in the copy. */
  function NewRequest(d: Disk, srcFile: Path, rp: string): string {
    match ResolveRequireTarget(d, srcFile, rp)
    case Some(target) => target
    case None => rp
  }

  function SuffixLast(segs: seq<string>, suffix: string): seq<string>
    requires segs != []
  {
    segs[..|segs| - 1] + [segs[|segs| - 1] + suffix]
  }

  lemma PrependSuffix(c: char, segs: seq<string>, suffix: string)
    requires segs != []
    ensures Prepend(c, SuffixLast(segs, suffix)) == SuffixLast(Prepend(c, segs), suffix)
  {
    if |segs| == 1 {
      assert [c] + (segs[0] + suffix) == [c] + segs[0] + suffix;
    } else {
      assert segs[1..][..|segs| - 2] == segs[..|segs| - 1][1..];
    }
  }

  lemma {:induction false} SplitSuffix(rp: string, suffix: string)
    requires '/' !in suffix
    ensures Segments(rp + suffix) == SuffixLast(Segments(rp), suffix)
  {
    if rp == "" {
      SplitWhole(suffix, '/');
      assert "" + suffix == suffix;
    } else {
      SplitSuffix(rp[1..], suffix);
      assert (rp + suffix)[1..] == rp[1..] + suffix;
      var rest := Segments(rp[1..]);
      if rp[0] == '/' {
        assert [""] + SuffixLast(rest, suffix) == SuffixLast([""] + rest, suffix);
      } else {
        PrependSuffix(rp[0], rest, suffix);
        assert Segments(rp + suffix) == Prepend(rp[0], SuffixLast(rest, suffix));
      }
    }
  }

  lemma {:induction false} SplitSlash(rp: string, name: string)
    requires '/' !in name
    ensures Segments(rp + "/" + name) == Segments(rp) + [name]
  {
    if rp == "" {
      SplitAt("", '/', name);
      SplitWhole(name, '/');
      assert "" + ['/'] + name == rp + "/" + name;
    } else {
      SplitSlash(rp[1..], name);
      assert (rp + "/" + name)[1..] == rp[1..] + "/" + name;
    }
  }

  lemma {:induction false} SplitOfSlash(rp: string)
    requires EndsWith(rp, "/")
    ensures Segments(rp) == Segments(DropSlash(rp)) + [""]
  {
    SplitSlash(DropSlash(rp), "");
    assert DropSlash(rp) + "/" + "" == rp;
  }

  lemma FollowLast(p: Path, segs: seq<string>, last: string)
    ensures Follow(p, segs + [last]) == Step(Follow(p, segs), last)
  {
    assert (segs + [last])[..|segs|] == segs;
  }

  lemma IndexResolves(dir: Path, rp: string)
    ensures Resolve(dir, DropSlash(rp) + "/index.cjs") == Resolve(dir, rp) + ["index.cjs"]
  {
    var base := DropSlash(rp);
    IndexOf(dir, base);
    if EndsWith(rp, "/") {
      SplitOfSlash(rp);
      FollowLast(dir, Segments(base), "");
    }
  }

  lemma SplitIndex(base: string)
    ensures Segments(base + "/index.cjs") == Segments(base) + ["index.cjs"]
  {
    var name := "index.cjs";
    SplitSlash(base, name);
    SlashName(base);
  }

  lemma SlashName(base: string)
    ensures base + "/index.cjs" == base + "/" + "index.cjs"
  {
  }

  lemma IndexOf(dir: Path, base: string)
    ensures Resolve(dir, base + "/index.cjs") == Resolve(dir, base) + ["index.cjs"]
  {
    SplitIndex(base);
    FollowLast(dir, Segments(base), "index.cjs");
    assert Plain("index.cjs");
  }

  // ---------- The rewrite of a file ----------

  const REQUIRE := "require(\""

  function ToQuote(s: string): (t: string)
    ensures t <= s && '"' !in t
    ensures |t| < |s| ==> s[|t|] == '"'
  {
    if s == "" || s[0] == '"' then "" else [s[0]] + ToQuote(s[1..])
  }

  /** `/require\("(\.\.?\/[^"]+?)"\)/` at the start of the text: the request it captures. */
  function MatchAt(s: string): Option<string> {
    if REQUIRE <= s then
      var rp := ToQuote(s[9..]);
      if Captured(rp) && "\")" <= s[9 + |rp|..] then Some(rp) else None
    else None
  }

  predicate Captured(rp: string) {
    ("./" <= rp && |rp| > 2) || ("../" <= rp && |rp| > 3)
  }

  function Replacement(d: Disk, src: Path, rp: string): string {
    REQUIRE + NewRequest(d, src, rp) + "\")"
  }

  function Rewrite(d: Disk, src: Path, s: string): string
    decreases |s|
  {
    if s == "" then ""
    else match MatchAt(s)
      case Some(rp) => Replacement(d, src, rp) + Rewrite(d, src, s[11 + |rp|..])
      case None => [s[0]] + Rewrite(d, src, s[1..])
  }

  /** The requests of a module, in order. */
  function Requests(s: string): seq<string>
    decreases |s|
  {
    if s == "" then []
    else match MatchAt(s)
      case Some(rp) => [rp] + Requests(s[11 + |rp|..])
      case None => Requests(s[1..])
  }

  /** The text with its requests blanked out. */
  function Blanked(s: string): string
    decreases |s|
  {
    if s == "" then ""
    else match MatchAt(s)
      case Some(rp) => REQUIRE + "\")" + Blanked(s[11 + |rp|..])
      case None => [s[0]] + Blanked(s[1..])
  }

  function NewRequests(d: Disk, src: Path, rps: seq<string>): seq<string> {
    if rps == [] then [] else [NewRequest(d, src, rps[0])] + NewRequests(d, src, rps[1..])
  }

  lemma MatchShape(s: string)
    requires MatchAt(s).Some?
    ensures var rp := MatchAt(s).value;
      && |s| >= 11 + |rp| && s[..9] == REQUIRE && '"' !in rp && Captured(rp)
      && s == REQUIRE + rp + "\")" + s[11 + |rp|..]
  {
    var rp := MatchAt(s).value;
    assert s[9..][..|rp|] == rp;
    assert s[9 + |rp|..][..2] == "\")";
  }

  lemma {:induction false} ToFirstQuote(s: string, k: nat)
    requires k < |s| && s[k] == '"' && '"' !in s[..k]
    ensures ToQuote(s) == s[..k]
  {
    if k > 0 {
      assert s[0] in s[..k];
      assert s[..k] == [s[0]] + s[1..][..k - 1];
      ToFirstQuote(s[1..], k - 1);
    }
  }

  lemma MatchOf(rp: string, rest: string)
    requires '"' !in rp && Captured(rp)
    ensures var s := REQUIRE + rp + "\")" + rest;
      MatchAt(s) == Some(rp) && s[11 + |rp|..] == rest
  {
    var s := REQUIRE + rp + "\")" + rest;
    assert s[..9] == REQUIRE;
    assert s[9..] == rp + "\")" + rest;
    ToFirstQuote(s[9..], |rp|);
    assert s[9..][..|rp|] == rp;
    assert s[9 + |rp|..] == "\")" + rest;
  }

  lemma NewRequestShape(d: Disk, src: Path, rp: string)
    requires '"' !in rp && Captured(rp)
    ensures var n := NewRequest(d, src, rp);
      && '"' !in n && Captured(n) && n[0] == '.'
      && NewRequest(d, src, n) == n
  {
    var target := ResolveRequireTarget(d, src, rp);
    if target.Some? {
      SuffixedShape(rp, ".cjs");
      BaseShape(rp);
      SuffixedShape(DropSlash(rp), "/index.cjs");
      LeftAlone(d, src, target.value);
    }
  }

  lemma LeftAlone(d: Disk, src: Path, n: string)
    requires EndsWith(n, ".cjs")
    ensures ResolveRequireTarget(d, src, n).None?
  {
  }

  lemma BaseShape(rp: string)
    requires '"' !in rp && Captured(rp)
    ensures '"' !in DropSlash(rp) && Relative(DropSlash(rp))
  {
  }

  lemma SuffixedShape(base: string, suffix: string)
    requires '"' !in base && Relative(base)
    requires suffix == "/index.cjs" || suffix == ".cjs"
    ensures var n := base + suffix; '"' !in n && Captured(n) && n[0] == '.' && EndsWith(n, ".cjs")
  {
    var n := base + suffix;
    assert n[|n| - 4..] == suffix[|suffix| - 4..];
    assert n[0] == base[0] && n[1] == base[1];
    assert "../" <= base ==> n[2] == base[2];
  }

  lemma WordFirst(x: string)
    ensures ToQuote(REQUIRE + x) == "require("
    ensures x != "" ==> (REQUIRE + x)[9] == x[0]
  {
    var s := REQUIRE + x;
    assert s[..8] == "require(" && s[8] == '"';
    ToFirstQuote(s, 8);
  }

  lemma Associate(a: string, b: string, c: string, t: string)
    ensures a + b + c + t == a + (b + (c + t))
  {
  }

  /** The rewrite leaves everything up to the first quote, and one character beyond, as it is. */
  lemma {:induction false} KeepsToQuote(d: Disk, src: Path, s: string)
    ensures var out, q := Rewrite(d, src, s), |ToQuote(s)|;
      && ToQuote(out) == ToQuote(s)
      && (s != "" ==> out != "" && out[0] == s[0])
      && (q < |s| <==> q < |out|)
      && (q + 1 < |s| <==> q + 1 < |out|)
      && (q + 1 < |s| ==> out[q + 1] == s[q + 1])
    decreases |s|
  {
    if s != "" {
      match MatchAt(s)
      case Some(rp) =>
        MatchShape(s);
        NewRequestShape(d, src, rp);
        var n := NewRequest(d, src, rp);
        WordFirst(rp + ("\")" + s[11 + |rp|..]));
        WordFirst(n + ("\")" + Rewrite(d, src, s[11 + |rp|..])));
        Associate(REQUIRE, rp, "\")", s[11 + |rp|..]);
        Associate(REQUIRE, n, "\")", Rewrite(d, src, s[11 + |rp|..]));
      case None =>
        KeepsToQuote(d, src, s[1..]);
    }
  }

  /** No request starts strictly inside the word `require("`. */
  lemma NoneInside(s: string, j: nat)
    requires REQUIRE <= s && 1 <= j <= 8
    ensures MatchAt(s[j..]).None?
  {
    assert s[j] == REQUIRE[j];
    assert REQUIRE <= s[j..] ==> s[j..][0] == 'r';
    if j == 5 {
      assert s[5..][2] == s[7] == REQUIRE[7] == '(';
    }
  }

  lemma {:induction false} SkipsWord(d: Disk, src: Path, s: string, j: nat)
    requires REQUIRE <= s && 1 <= j <= 9
    ensures Rewrite(d, src, s[j..]) == s[j..9] + Rewrite(d, src, s[9..])
    decreases 9 - j
  {
    if j < 9 {
      NoneInside(s, j);
      SkipsWord(d, src, s, j + 1);
      assert s[j..][1..] == s[j + 1..];
      assert s[j..9] == [s[j]] + s[j + 1..9];
    }
  }

  /** Rewriting what follows a character never makes a request start at it. */
  lemma NoNewMatch(d: Disk, src: Path, s: string)
    requires s != "" && MatchAt(s).None?
    ensures MatchAt([s[0]] + Rewrite(d, src, s[1..])).None?
  {
    var t := [s[0]] + Rewrite(d, src, s[1..]);
    if REQUIRE <= t {
      WordKept(d, src, s);
      SkipsWord(d, src, s, 1);
      WordThen(s, Rewrite(d, src, s[9..]));
      KeepsToQuote(d, src, s[9..]);
      SameMatch(s, t);
    }
  }

  lemma WordThen(s: string, rest: string)
    requires REQUIRE <= s
    ensures ([s[0]] + (s[1..9] + rest))[9..] == rest
  {
  }

  lemma PrefixAfterFirst(p: string, c: char, u: string)
    requires p != ""
    ensures p <= [c] + u <==> p[0] == c && p[1..] <= u
  {
    var s := [c] + u;
    if |p| <= |s| {
      assert s[..|p|] == [c] + u[..|p| - 1];
      assert p == [p[0]] + p[1..];
    }
  }

  lemma PrefixToQuote(w: string, u: string)
    requires '"' !in w
    ensures w + "\"" <= u <==> ToQuote(u) == w && |w| < |u|
  {
    if w + "\"" <= u {
      assert u[|w|] == (w + "\"")[|w|] && u[..|w|] == (w + "\"")[..|w|] == w;
      ToFirstQuote(u, |w|);
    }
  }

  lemma WordKept(d: Disk, src: Path, s: string)
    requires s != "" && REQUIRE <= [s[0]] + Rewrite(d, src, s[1..])
    ensures REQUIRE <= s
  {
    var u, out := s[1..], Rewrite(d, src, s[1..]);
    var w := REQUIRE[1..8];
    assert REQUIRE[1..] == w + "\"";
    PrefixAfterFirst(REQUIRE, s[0], out);
    PrefixToQuote(w, out);
    KeepsToQuote(d, src, u);
    PrefixToQuote(w, u);
    PrefixAfterFirst(REQUIRE, s[0], u);
    assert s == [s[0]] + u;
  }

  /** Whether a request starts at a text depends on the text up to the second quote and the character after it. */
  lemma SameMatch(s: string, t: string)
    requires REQUIRE <= s && REQUIRE <= t && MatchAt(s).None?
    requires var a, b := s[9..], t[9..]; var q := |ToQuote(a)|;
      && ToQuote(b) == ToQuote(a) && (q < |a| <==> q < |b|) && (q + 1 < |a| <==> q + 1 < |b|)
      && (q + 1 < |a| ==> a[q + 1] == b[q + 1])
    ensures MatchAt(t).None?
  {
    var a, b := s[9..], t[9..];
    var q := |ToQuote(a)|;
    if "\")" <= t[9 + q..] {
      assert t[9 + q..][1] == b[q + 1];
      assert "\")" <= s[9 + q..] by {
        assert s[9 + q..][0] == a[q] && s[9 + q..][1] == a[q + 1];
      }
    }
  }

  /** Rewriting a file renames its requests one by one, touches nothing else, and rewriting it again changes
      nothing. */
  lemma {:induction false} RewriteExact(d: Disk, src: Path, s: string)
    ensures var out := Rewrite(d, src, s);
      && Requests(out) == NewRequests(d, src, Requests(s))
      && Blanked(out) == Blanked(s)
      && Rewrite(d, src, out) == out
    decreases |s|
  {
    if s != "" {
      match MatchAt(s)
      case Some(rp) =>
        MatchShape(s);
        NewRequestShape(d, src, rp);
        RewriteExact(d, src, s[11 + |rp|..]);
        MatchOf(NewRequest(d, src, rp), Rewrite(d, src, s[11 + |rp|..]));
      case None =>
        RewriteExact(d, src, s[1..]);
        NoNewMatch(d, src, s);
        var out := [s[0]] + Rewrite(d, src, s[1..]);
        assert out[1..] == Rewrite(d, src, s[1..]);
    }
  }

  predicate Touches(d: Disk, src: Path, s: string) {
    exists rp <- Requests(s) :: ResolveRequireTarget(d, src, rp).Some?
  }

  lemma TouchStep(d: Disk, src: Path, s: string)
    requires s != ""
    ensures MatchAt(s).None? ==> Touches(d, src, s) == Touches(d, src, s[1..])
    ensures MatchAt(s).Some? ==>
      var rp := MatchAt(s).value;
      Touches(d, src, s) == (ResolveRequireTarget(d, src, rp).Some? || Touches(d, src, s[11 + |rp|..]))
  {
    if MatchAt(s).Some? {
      var rest := Requests(s[11 + |MatchAt(s).value|..]);
      assert forall r :: r in Requests(s) <==> r == MatchAt(s).value || r in rest;
    }
  }

  lemma OneStep(d: Disk, src: Path, done: string, s: string)
    requires s != ""
    ensures MatchAt(s).None? ==> done + Rewrite(d, src, s) == (done + [s[0]]) + Rewrite(d, src, s[1..])
    ensures MatchAt(s).Some? ==>
      var rp := MatchAt(s).value;
      done + Rewrite(d, src, s) == (done + Replacement(d, src, rp)) + Rewrite(d, src, s[11 + |rp|..])
  {
    match MatchAt(s)
    case None => Assoc(done, [s[0]], Rewrite(d, src, s[1..]));
    case Some(rp) => Assoc(done, Replacement(d, src, rp), Rewrite(d, src, s[11 + |rp|..]));
  }

  /** `copyAndRewriteCjs`: one pass over the text, replacing request after request. */
  method CopyAndRewriteCjs(d: Disk, src: Path, content: string) returns (rewritten: string, touched: bool)
    ensures rewritten == Rewrite(d, src, content)
    ensures touched <==> Touches(d, src, content)
  {
    rewritten, touched := "", false;
    var rest := content;
    while rest != ""
      invariant rewritten + Rewrite(d, src, rest) == Rewrite(d, src, content)
      invariant (touched || Touches(d, src, rest)) == Touches(d, src, content)
      decreases |rest|
    {
      var m := MatchAt(rest);
      TouchStep(d, src, rest);
      OneStep(d, src, rewritten, rest);
      if m.None? {
        rewritten := rewritten + [rest[0]];
        rest := rest[1..];
      } else {
        var rp := m.value;
        MatchShape(rest);
        touched := touched || ResolveRequireTarget(d, src, rp).Some?;
        rewritten := rewritten + Replacement(d, src, rp);
        rest := rest[11 + |rp|..];
      }
    }
  }

  // ---------- Which requests are captured, and which are left alone ----------

  /** What is matched at the start of a text is the word, a quoted request of which something follows the leading
      "./" or "../", and the closing bracket, and nothing else is. */
  lemma MatchesExactly(s: string, rp: string)
    ensures MatchAt(s) == Some(rp) <==>
      && '"' !in rp && ((StartsWith(rp, "./") && |rp| > 2) || (StartsWith(rp, "../") && |rp| > 3))
      && exists rest :: s == "require(\"" + rp + "\")" + rest
  {
    if MatchAt(s) == Some(rp) {
      MatchShape(s);
    }
    if rest :| s == REQUIRE + rp + "\")" + rest && '"' !in rp && Captured(rp) {
      MatchOf(rp, rest);
    }
  }

  predicate StartsWith(s: string, prefix: string) {
    |s| >= |prefix| && s[..|prefix|] == prefix
  }

  /** A request is left alone exactly when it is of a package, has one of five extensions, or neither the module nor
      the index it could stand for exists. */
  lemma LeftAloneIff(d: Disk, src: Path, rp: string)
    requires src != []
    ensures ResolveRequireTarget(d, src, rp).None? <==>
      || !(StartsWith(rp, "./") || StartsWith(rp, "../"))
      || (exists base, ext :: ext in [".cjs", ".json", ".node", ".js", ".mjs"] && rp == base + ext)
      || (var c := Resolve(src[..|src| - 1], rp);
          && !Exists(d, WithSuffix(c, ".cjs")) && !(c in d.dirs && Exists(d, c + ["index.cjs"])))
  {
    ExtensionIff(rp);
  }

  lemma ExtensionIff(rp: string)
    ensures HasExtension(rp) <==>
      exists base, ext :: ext in [".cjs", ".json", ".node", ".js", ".mjs"] && rp == base + ext
  {
    forall ext: string ensures EndsWith(rp, ext) <==> exists base :: rp == base + ext {
      EndsWithIff(rp, ext);
    }
    if base, ext :| ext in [".cjs", ".json", ".node", ".js", ".mjs"] && rp == base + ext {
      assert EndsWith(rp, ext);
    }
    if HasExtension(rp) {
      var ext := if EndsWith(rp, ".cjs") then ".cjs" else if EndsWith(rp, ".json") then ".json"
                 else if EndsWith(rp, ".node") then ".node" else if EndsWith(rp, ".js") then ".js" else ".mjs";
      assert EndsWith(rp, ext);
      assert ext in [".cjs", ".json", ".node", ".js", ".mjs"];
    }
  }

  lemma EndsWithIff(s: string, suffix: string)
    ensures EndsWith(s, suffix) <==> exists base :: s == base + suffix
  {
    if EndsWith(s, suffix) {
      assert s == s[..|s| - |suffix|] + suffix;
    }
  }

  /** A module is named by the suffix, whatever else exists; a directory by its index, with or without a slash. */
  lemma TargetExactly(d: Disk, src: Path, base: string)
    requires src != [] && Relative(base) && !HasExtension(base) && base[|base| - 1] != '/'
    ensures var c := Resolve(Up(src), base);
      && (Exists(d, WithSuffix(c, ".cjs")) ==> ResolveRequireTarget(d, src, base) == Some(base + ".cjs"))
      && (!Exists(d, WithSuffix(c, ".cjs")) && c in d.dirs && Exists(d, c + ["index.cjs"]) ==>
           && ResolveRequireTarget(d, src, base) == Some(base + "/index.cjs")
           && ResolveRequireTarget(d, src, base + "/") == Some(base + "/index.cjs"))
  {
    assert base[|base| - 1..] != "/";
    Slashed(Up(src), base);
    NoExtension(base + "/");
  }

  lemma Slashed(dir: Path, base: string)
    ensures DropSlash(base + "/") == base && Resolve(dir, base + "/") == Resolve(dir, base)
    ensures Relative(base) ==> Relative(base + "/")
  {
    var slashed := base + "/";
    assert slashed[|slashed| - 1..] == "/" && slashed[..|slashed| - 1] == base;
    SplitOfSlash(slashed);
    FollowLast(dir, Segments(base), "");
  }

  lemma NoExtension(rp: string)
    requires rp != "" && rp[|rp| - 1] !in {'s', 'n', 'e'}
    ensures !HasExtension(rp)
  {
  }
}
