/**
 * Concrete resolutions on small disks: a single extension hit, a duplicate,
 * extension order winning over the kind of candidate, a case mismatch on a
 * case-insensitive disk, two roots, and an index route.
 */
module Scenarios {
  import opened PathModel
  import opened FileSystemModel
  import opened FindPageFile
  import FindPageFileProperties

  const Pages: Path := ["pages"]
  const Src: Path := ["src", "pages"]
  const Exts: seq<Extension> := ["tsx", "js"]

  /** Only pages/about.js exists. */
  const JsOnly := FileSystem({["pages", "about.js"]}, map[Pages := ["about.js"]])

  /** pages/about.tsx, pages/about/index.tsx and pages/about.js exist. */
  const ThreeFiles := FileSystem({["pages", "about.tsx"], ["pages", "about", "index.tsx"], ["pages", "about.js"]},
                                 map[Pages := ["about", "about.js", "about.tsx"], ["pages", "about"] := ["index.tsx"]])

  /** A case-insensitive disk holding pages/About.js: `fileExists` accepts either spelling. */
  const CaseInsensitive := FileSystem({["pages", "about.js"], ["pages", "About.js"]}, map[Pages := ["About.js"]])

  /** Both src/pages/about.js and pages/about.js exist. */
  const TwoRoots := FileSystem({["src", "pages", "about.js"], ["pages", "about.js"]},
                               map[Src := ["about.js"], Pages := ["about.js"]])

  /** Only pages/about.js and pages/about/index.tsx exist. */
  const IndexTsxAndJs := FileSystem({["pages", "about.js"], ["pages", "about", "index.tsx"]},
                                    map[Pages := ["about", "about.js"], ["pages", "about"] := ["index.tsx"]])

  /** pages/index.js and a stray pages/.js exist. */
  const IndexAndDotJs := FileSystem({["pages", "index.js"], ["pages", ".js"]}, map[Pages := [".js", "index.js"]])

  /** The four candidates of the route "/about" for the extensions "tsx" and "js". */
  lemma AboutCandidates()
    ensures Tested("/about", ["about"], Exts)
            == [["about.tsx"], ["about", "index.tsx"], ["about.js"], ["about", "index.js"]]
  {
    var p: Path := ["about"];
    assert p[..0] == [] && p[0] == "about";
    assert "about" + "." + "tsx" == "about.tsx";
    assert "about" + "." + "js" == "about.js";
    assert "index." + "tsx" == "index.tsx";
    assert "index." + "js" == "index.js";
    assert !EndsWith("/about", IndexSuffix);
    assert DirectCandidate(p, "tsx") == ["about.tsx"] && IndexCandidate(p, "tsx") == ["about", "index.tsx"];
    assert DirectCandidate(p, "js") == ["about.js"] && IndexCandidate(p, "js") == ["about", "index.js"];
    assert Exts[..1] == ["tsx"] && Exts[..1][..0] == [];
  }

  /** A one-segment page passes the case check iff its directory lists it. */
  lemma OneSegmentTrueCase(fs: FileSystem, s: Segment, dir: Path)
    ensures IsTrueCasePagePath(fs, [s], dir) <==> s in fs.ReadDir(dir)
  {
    assert [s][..0] == [];
    assert dir + [] == dir;
  }

  /** Recording four candidates, in order. */
  lemma HitsOfFour(fs: FileSystem, rootDir: Path, t: seq<Path>)
    requires |t| == 4
    ensures Hits(fs, rootDir, t)
            == Hit(fs, rootDir, t[0]) + Hit(fs, rootDir, t[1]) + Hit(fs, rootDir, t[2]) + Hit(fs, rootDir, t[3])
  {
    var front, back := [t[0], t[1]], [t[2], t[3]];
    assert t == front + back;
    HitsAppend(fs, rootDir, front, back);
    HitsOfPair(fs, rootDir, t[0], t[1]);
    HitsOfPair(fs, rootDir, t[2], t[3]);
  }

  /** What is recorded for "/about" with the extensions "tsx" and "js", on any disk. */
  lemma AboutRecorded(fs: FileSystem, rootDir: Path)
    ensures Recorded(fs, rootDir, "/about", ["about"], Exts)
            == Hit(fs, rootDir, ["about.tsx"]) + Hit(fs, rootDir, ["about", "index.tsx"])
               + Hit(fs, rootDir, ["about.js"]) + Hit(fs, rootDir, ["about", "index.js"])
  {
    AboutCandidates();
    HitsOfFour(fs, rootDir, Tested("/about", ["about"], Exts));
  }

  lemma JsOnlyRecorded()
    ensures Recorded(JsOnly, Pages, "/about", ["about"], Exts) == [["about.js"]]
  {
    AboutRecorded(JsOnly, Pages);
    assert Pages + ["about.tsx"] == ["pages", "about.tsx"] && |"about.tsx"| != |"about.js"|;
    assert Pages + ["about", "index.tsx"] == ["pages", "about", "index.tsx"];
    assert Pages + ["about.js"] == ["pages", "about.js"];
    assert Pages + ["about", "index.js"] == ["pages", "about", "index.js"];
  }

  /** Only pages/about.js exists: "/about" resolves to about.js, with no warning. */
  lemma AboutResolvesToJs()
    ensures Resolve(JsOnly, [Pages], "/about", ["about"], Exts) == Some(Found(Pages, ["about.js"]))
    ensures ResolveWarnings(JsOnly, [Pages], "/about", ["about"], Exts) == []
  {
    JsOnlyRecorded();
    OneSegmentTrueCase(JsOnly, "about.js", Pages);
  }

  lemma ThreeFilesOnDisk()
    ensures ThreeFiles.FileExists(["pages", "about.tsx"])
    ensures ThreeFiles.FileExists(["pages", "about", "index.tsx"])
    ensures ThreeFiles.FileExists(["pages", "about.js"])
    ensures !ThreeFiles.FileExists(["pages", "about", "index.js"])
  {
  }

  lemma ThreeFilesRecorded()
    ensures Recorded(ThreeFiles, Pages, "/about", ["about"], Exts) == [["about.tsx"], ["about", "index.tsx"], ["about.js"]]
  {
    AboutRecorded(ThreeFiles, Pages);
    ThreeFilesOnDisk();
    assert Pages + ["about.tsx"] == ["pages", "about.tsx"];
    assert Pages + ["about", "index.tsx"] == ["pages", "about", "index.tsx"];
    assert Pages + ["about.js"] == ["pages", "about.js"];
    assert Pages + ["about", "index.js"] == ["pages", "about", "index.js"];
  }

  /** about.tsx, about/index.tsx and about.js all exist: about.tsx wins and the first two are reported. */
  lemma DuplicateIsReported()
    ensures Resolve(ThreeFiles, [Pages], "/about", ["about"], Exts) == Some(Found(Pages, ["about.tsx"]))
    ensures ResolveWarnings(ThreeFiles, [Pages], "/about", ["about"], Exts)
            == [DuplicatePage(["about.tsx"], ["about", "index.tsx"], "/about")]
  {
    ThreeFilesRecorded();
    OneSegmentTrueCase(ThreeFiles, "about.tsx", Pages);
  }

  lemma IndexTsxAndJsRecorded()
    ensures Recorded(IndexTsxAndJs, Pages, "/about", ["about"], Exts) == [["about", "index.tsx"], ["about.js"]]
  {
    AboutRecorded(IndexTsxAndJs, Pages);
    assert Pages + ["about.tsx"] == ["pages", "about.tsx"] && |"about.tsx"| != |"about.js"|;
    assert Pages + ["about", "index.tsx"] == ["pages", "about", "index.tsx"];
    assert Pages + ["about.js"] == ["pages", "about.js"];
    assert Pages + ["about", "index.js"] == ["pages", "about", "index.js"] && |"index.js"| != |"index.tsx"|;
  }

  /** Only about.js and about/index.tsx exist: the "tsx" index file beats the "js" direct file, and both are reported. */
  lemma ExtensionOrderBeatsDirectFile()
    ensures Resolve(IndexTsxAndJs, [Pages], "/about", ["about"], Exts) == Some(Found(Pages, ["about", "index.tsx"]))
    ensures ResolveWarnings(IndexTsxAndJs, [Pages], "/about", ["about"], Exts)
            == [DuplicatePage(["about", "index.tsx"], ["about.js"], "/about")]
  {
    var fs := IndexTsxAndJs;
    IndexTsxAndJsRecorded();
    FindPageFileProperties.TrueCaseAppend(fs, ["about"], ["index.tsx"], Pages);
    assert ["about"] + ["index.tsx"] == ["about", "index.tsx"];
    OneSegmentTrueCase(fs, "about", Pages);
    OneSegmentTrueCase(fs, "index.tsx", Pages + ["about"]);
    assert Pages + ["about"] == ["pages", "about"];
  }

  lemma CaseInsensitiveRecorded()
    ensures Recorded(CaseInsensitive, Pages, "/about", ["about"], Exts) == [["about.js"]]
  {
    AboutRecorded(CaseInsensitive, Pages);
    assert Pages + ["about.tsx"] == ["pages", "about.tsx"] && |"about.tsx"| != |"about.js"|;
    assert Pages + ["about", "index.tsx"] == ["pages", "about", "index.tsx"];
    assert Pages + ["about.js"] == ["pages", "about.js"];
    assert Pages + ["about", "index.js"] == ["pages", "about", "index.js"];
  }

  /** The disk finds pages/about.js, but its listing spells it About.js: nothing resolves and nothing is reported. */
  lemma CaseMismatchIsRejected()
    ensures Resolve(CaseInsensitive, [Pages], "/about", ["about"], Exts) == None
    ensures ResolveWarnings(CaseInsensitive, [Pages], "/about", ["about"], Exts) == []
  {
    CaseInsensitiveRecorded();
    assert "about.js"[0] != "About.js"[0];
    OneSegmentTrueCase(CaseInsensitive, "about.js", Pages);
  }

  /** Both roots hold the page: the earlier root wins, and the later root is never looked at, so nothing is reported. */
  lemma EarlierRootWins()
    ensures Resolve(TwoRoots, [Src, Pages], "/about", ["about"], ["js"]) == Some(Found(Src, ["about.js"]))
    ensures ResolveWarnings(TwoRoots, [Src, Pages], "/about", ["about"], ["js"]) == []
  {
    var fs := TwoRoots;
    var p: Path := ["about"];
    assert p[..0] == [] && p[0] == "about";
    assert "about" + "." + "js" == "about.js";
    assert "index." + "js" == "index.js";
    assert !EndsWith("/about", IndexSuffix);
    assert ["js"][..0] == [];
    assert DirectCandidate(p, "js") == ["about.js"] && IndexCandidate(p, "js") == ["about", "index.js"];
    assert CandidatesFor("/about", p, "js") == [["about.js"], ["about", "index.js"]];
    var t := Tested("/about", ["about"], ["js"]);
    assert t == [["about.js"], ["about", "index.js"]];
    assert fs.FileExists(Src + t[0]) by { assert Src + t[0] == ["src", "pages", "about.js"]; }
    assert !fs.FileExists(Src + t[1]) by { assert Src + t[1] == ["src", "pages", "about", "index.js"]; }
    var rest: seq<Path> := t[1..];
    assert Hits(fs, Src, rest) == [] by {
      var none: seq<Path> := [];
      assert rest[0] == t[1] && rest[1..] == none;
    }
    assert Recorded(fs, Src, "/about", ["about"], ["js"]) == [["about.js"]];
    OneSegmentTrueCase(fs, "about.js", Src);
  }

  /** The route "/index" (denormalized to the empty page) tests only index.js, never ".js". */
  lemma IndexRouteUsesIndexFile()
    ensures Tested("/index", [], ["js"]) == [["index.js"]]
    ensures Resolve(IndexAndDotJs, [Pages], "/index", [], ["js"]) == Some(Found(Pages, ["index.js"]))
  {
    var fs := IndexAndDotJs;
    assert EndsWith("/index", IndexSuffix);
    assert "index." + "js" == "index.js";
    assert ["js"][..0] == [];
    assert IndexCandidate([], "js") == ["index.js"];
    assert CandidatesFor("/index", [], "js") == [["index.js"]];
    var t := Tested("/index", [], ["js"]);
    assert t == [["index.js"]];
    assert t[1..] == [];
    assert fs.FileExists(Pages + t[0]) by { assert Pages + t[0] == ["pages", "index.js"]; }
    assert Recorded(fs, Pages, "/index", [], ["js"]) == [["index.js"]];
    OneSegmentTrueCase(fs, "index.js", Pages);
  }
}
