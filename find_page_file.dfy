/**
 * Resolution of a normalized page route (such as "/blog/post") to a page
 * source file under one of several root directories: candidate enumeration
 * per extension, the true-case check of the first hit, the duplicate
 * warning, and the priority order of the roots.
 */
module FindPageFile {
  import opened PathModel
  import opened FileSystemModel

  /** Routes ending in this suffix are resolved only through index files. */
  const IndexSuffix: string := "/index"

  /** The "Duplicate page detected" warning: the first two hits and the route. */
  datatype Warning = DuplicatePage(first: Path, second: Path, normalizedPagePath: string)

  /** A resolved page: the root it was found under and its path relative to that root. */
  datatype Found = Found(pageBase: Path, pagePath: Path)

  // ---------------------------------------------------------------------
  // True-case check
  // ---------------------------------------------------------------------

  /** `Array.prototype.every(Boolean)`. */
  function AllTrue(bs: seq<bool>): (r: bool)
    ensures r <==> forall i :: 0 <= i < |bs| ==> bs[i]
  {
    if bs == [] then true
    else
      assert forall i :: 1 <= i < |bs| ==> bs[1..][i - 1] == bs[i];
      bs[0] && AllTrue(bs[1..])
  }

  /** Per segment: does its parent directory list it with exactly this spelling? */
  function SegmentChecks(fs: FileSystem, pagePath: Path, pagesDir: Path): seq<bool>
  {
    seq(|pagePath|, i requires 0 <= i < |pagePath| => pagePath[i] in fs.ReadDir(pagesDir + pagePath[..i]))
  }

  /**
   * `isTrueCasePagePath`: map every segment to its listing test, then require
   * all of them.  Segment `i` must be listed, with exact case, in `pagesDir`
   * joined with segments `[0, i)`.
   */
  function IsTrueCasePagePath(fs: FileSystem, pagePath: Path, pagesDir: Path): (ok: bool)
    ensures ok <==> forall i :: 0 <= i < |pagePath| ==> pagePath[i] in fs.ReadDir(pagesDir + pagePath[..i])
  {
    var checks := SegmentChecks(fs, pagePath, pagesDir);
    assert forall i :: 0 <= i < |pagePath| ==> checks[i] == (pagePath[i] in fs.ReadDir(pagesDir + pagePath[..i]));
    AllTrue(checks)
  }

  // ---------------------------------------------------------------------
  // Candidates
  // ---------------------------------------------------------------------

  /** `${page}.${extension}`: the extension is appended to the last segment. */
  function DirectCandidate(page: Path, ext: Extension): Path
  {
    if page == [] then ["." + ext]
    else page[..|page| - 1] + [page[|page| - 1] + "." + ext]
  }

  /** `join(page, `index.${extension}`)`. */
  function IndexCandidate(page: Path, ext: Extension): Path
  {
    page + ["index." + ext]
  }

  /** Written out, the direct candidate is the page followed by `.` and the extension; the empty page is written `/`. */
  lemma DirectCandidateText(page: Path, ext: Extension)
    ensures Text(DirectCandidate(page, ext)) == (if page == [] then "/" else Text(page)) + "." + ext
  {
    if page == [] {
      TextSnoc([], "." + ext);
      assert [] + ["." + ext] == ["." + ext];
    } else {
      var init, last := page[..|page| - 1], page[|page| - 1];
      assert page == init + [last];
      TextSnoc(init, last);
      TextSnoc(init, last + "." + ext);
    }
  }

  /** Written out, the index candidate is the page followed by `/index.` and the extension. */
  lemma IndexCandidateText(page: Path, ext: Extension)
    ensures Text(IndexCandidate(page, ext)) == Text(page) + "/index." + ext
  {
    TextSnoc(page, "index." + ext);
  }

  /** The candidates tested for one extension, in the order they are tested. */
  function CandidatesFor(normalizedPagePath: string, page: Path, ext: Extension): seq<Path>
  {
    (if EndsWith(normalizedPagePath, IndexSuffix) then [] else [DirectCandidate(page, ext)])
    + [IndexCandidate(page, ext)]
  }

  /** Every candidate tested, over the extensions in list order. */
  function Tested(normalizedPagePath: string, page: Path, exts: seq<Extension>): seq<Path>
  {
    if exts == [] then []
    else Tested(normalizedPagePath, page, exts[..|exts| - 1])
         + CandidatesFor(normalizedPagePath, page, exts[|exts| - 1])
  }

  /** The candidates that exist under `rootDir`, in the order they were tested. */
  function Hits(fs: FileSystem, rootDir: Path, cands: seq<Path>): (r: seq<Path>)
    ensures |r| <= |cands|
    ensures forall c :: c in r ==> c in cands && fs.FileExists(rootDir + c)
  {
    if cands == [] then []
    else (if fs.FileExists(rootDir + cands[0]) then [cands[0]] else [])
         + Hits(fs, rootDir, cands[1..])
  }

  /** `foundPagePaths` once the loop over the extensions is done. */
  function Recorded(fs: FileSystem, rootDir: Path, normalizedPagePath: string, page: Path,
                    exts: seq<Extension>): seq<Path>
  {
    Hits(fs, rootDir, Tested(normalizedPagePath, page, exts))
  }

  // ---------------------------------------------------------------------
  // Per-root and multi-root results
  // ---------------------------------------------------------------------

  /** What `findPageFileForRoot` returns. */
  function ResolveInRoot(fs: FileSystem, rootDir: Path, normalizedPagePath: string, page: Path,
                         exts: seq<Extension>): Option<Path>
  {
    var found := Recorded(fs, rootDir, normalizedPagePath, page, exts);
    if |found| < 1 then None
    else if !IsTrueCasePagePath(fs, found[0], rootDir) then None
    else Some(found[0])
  }

  /** What `findPageFileForRoot` passes to `warn`. */
  function RootWarnings(fs: FileSystem, rootDir: Path, normalizedPagePath: string, page: Path,
                        exts: seq<Extension>): seq<Warning>
  {
    var found := Recorded(fs, rootDir, normalizedPagePath, page, exts);
    if |found| < 1 then []
    else if !IsTrueCasePagePath(fs, found[0], rootDir) then []
    else if |found| > 1 then [DuplicatePage(found[0], found[1], normalizedPagePath)]
    else []
  }

  /** What `findPageFile` returns: the first root with a result. */
  function Resolve(fs: FileSystem, rootDirs: seq<Path>, normalizedPagePath: string, page: Path,
                   exts: seq<Extension>): Option<Found>
  {
    if rootDirs == [] then None
    else match ResolveInRoot(fs, rootDirs[0], normalizedPagePath, page, exts)
      case Some(p) => Some(Found(rootDirs[0], p))
      case None => Resolve(fs, rootDirs[1..], normalizedPagePath, page, exts)
  }

  /** Every warning `findPageFile` emits, root by root until it returns. */
  function ResolveWarnings(fs: FileSystem, rootDirs: seq<Path>, normalizedPagePath: string, page: Path,
                           exts: seq<Extension>): seq<Warning>
  {
    if rootDirs == [] then []
    else RootWarnings(fs, rootDirs[0], normalizedPagePath, page, exts)
         + (if ResolveInRoot(fs, rootDirs[0], normalizedPagePath, page, exts).Some? then []
            else ResolveWarnings(fs, rootDirs[1..], normalizedPagePath, page, exts))
  }

  lemma {:induction false} HitsAppend(fs: FileSystem, rootDir: Path, a: seq<Path>, b: seq<Path>)
    ensures Hits(fs, rootDir, a + b) == Hits(fs, rootDir, a) + Hits(fs, rootDir, b)
  {
    if a == [] {
      assert a + b == b;
    } else {
      assert (a + b)[1..] == a[1..] + b;
      HitsAppend(fs, rootDir, a[1..], b);
    }
  }

  /** The hit list of a single candidate: the candidate if it exists under `rootDir`, else nothing. */
  function Hit(fs: FileSystem, rootDir: Path, c: Path): seq<Path>
  {
    if fs.FileExists(rootDir + c) then [c] else []
  }

  /** Recording one candidate. */
  lemma HitsOfOne(fs: FileSystem, rootDir: Path, a: Path)
    ensures Hits(fs, rootDir, [a]) == Hit(fs, rootDir, a)
  {
    assert [a][1..] == [];
  }

  /** Recording two candidates, the first before the second. */
  lemma HitsOfPair(fs: FileSystem, rootDir: Path, a: Path, b: Path)
    ensures Hits(fs, rootDir, [a, b]) == Hit(fs, rootDir, a) + Hit(fs, rootDir, b)
  {
    assert [a, b] == [a] + [b];
    HitsAppend(fs, rootDir, [a], [b]);
    HitsOfOne(fs, rootDir, a);
    HitsOfOne(fs, rootDir, b);
  }

  /** The hits among one extension's candidates: its direct file (unless the route is an index route), then its index file. */
  lemma HitsOfCandidates(fs: FileSystem, rootDir: Path, normalizedPagePath: string, page: Path, ext: Extension)
    ensures Hits(fs, rootDir, CandidatesFor(normalizedPagePath, page, ext))
            == (if EndsWith(normalizedPagePath, IndexSuffix) then [] else Hit(fs, rootDir, DirectCandidate(page, ext)))
               + Hit(fs, rootDir, IndexCandidate(page, ext))
  {
    var d, x := DirectCandidate(page, ext), IndexCandidate(page, ext);
    if EndsWith(normalizedPagePath, IndexSuffix) {
      assert CandidatesFor(normalizedPagePath, page, ext) == [x];
      HitsOfOne(fs, rootDir, x);
    } else {
      assert CandidatesFor(normalizedPagePath, page, ext) == [d, x];
      HitsOfPair(fs, rootDir, d, x);
    }
  }

  /** One more extension appends the hits among its own candidates, direct first. */
  lemma RecordedSnoc(fs: FileSystem, rootDir: Path, normalizedPagePath: string, page: Path,
                     exts: seq<Extension>, i: nat)
    requires i < |exts|
    ensures Hits(fs, rootDir, Tested(normalizedPagePath, page, exts[..i + 1]))
            == Hits(fs, rootDir, Tested(normalizedPagePath, page, exts[..i]))
               + (if !EndsWith(normalizedPagePath, IndexSuffix) && fs.FileExists(rootDir + DirectCandidate(page, exts[i]))
                  then [DirectCandidate(page, exts[i])] else [])
               + (if fs.FileExists(rootDir + IndexCandidate(page, exts[i]))
                  then [IndexCandidate(page, exts[i])] else [])
  {
    var before := Tested(normalizedPagePath, page, exts[..i]);
    var own := CandidatesFor(normalizedPagePath, page, exts[i]);
    TestedSnoc(normalizedPagePath, page, exts, i);
    HitsAppend(fs, rootDir, before, own);
    HitsOfCandidates(fs, rootDir, normalizedPagePath, page, exts[i]);
  }

  /** One more extension appends its own candidates to those tested before it. */
  lemma TestedSnoc(normalizedPagePath: string, page: Path, exts: seq<Extension>, i: nat)
    requires i < |exts|
    ensures Tested(normalizedPagePath, page, exts[..i + 1])
            == Tested(normalizedPagePath, page, exts[..i]) + CandidatesFor(normalizedPagePath, page, exts[i])
  {
    var prefix := exts[..i + 1];
    assert prefix[..|prefix| - 1] == exts[..i] && prefix[|prefix| - 1] == exts[i];
  }

  // ---------------------------------------------------------------------
  // The two operations
  // ---------------------------------------------------------------------

  /**
   * `findPageFileForRoot`: test the direct and the index candidate of each
   * extension, collect the hits, case-check the first one and warn about
   * duplicates.  `warnings` holds what was passed to `warn`.
   */
  method FindPageFileForRoot(fs: FileSystem, rootDir: Path, normalizedPagePath: string,
                             pageExtensions: seq<Extension>, denormalize: string -> Path)
    returns (pagePath: Option<Path>, warnings: seq<Warning>)
    ensures pagePath == ResolveInRoot(fs, rootDir, normalizedPagePath, denormalize(normalizedPagePath), pageExtensions)
    ensures warnings == RootWarnings(fs, rootDir, normalizedPagePath, denormalize(normalizedPagePath), pageExtensions)
  {
    var foundPagePaths: seq<Path> := [];
    var page := denormalize(normalizedPagePath);

    for i := 0 to |pageExtensions|
      invariant foundPagePaths == Hits(fs, rootDir, Tested(normalizedPagePath, page, pageExtensions[..i]))
    {
      var extension := pageExtensions[i];
      RecordedSnoc(fs, rootDir, normalizedPagePath, page, pageExtensions, i);
      if !EndsWith(normalizedPagePath, IndexSuffix) {
        var relativePagePath := DirectCandidate(page, extension);
        if fs.FileExists(rootDir + relativePagePath) {
          foundPagePaths := foundPagePaths + [relativePagePath];
        }
      }
      var relativePagePathWithIndex := IndexCandidate(page, extension);
      if fs.FileExists(rootDir + relativePagePathWithIndex) {
        foundPagePaths := foundPagePaths + [relativePagePathWithIndex];
      }
    }
    assert pageExtensions[..|pageExtensions|] == pageExtensions;

    warnings := [];
    if |foundPagePaths| < 1 {
      return None, warnings;
    }
    if !IsTrueCasePagePath(fs, foundPagePaths[0], rootDir) {
      return None, warnings;
    }
    if |foundPagePaths| > 1 {
      warnings := warnings + [DuplicatePage(foundPagePaths[0], foundPagePaths[1], normalizedPagePath)];
    }
    return Some(foundPagePaths[0]), warnings;
  }

  /**
   * `findPageFile`: try the roots in order and return the first hit with the
   * root it came from.  `warnings` holds everything passed to `warn`.
   */
  method FindPageFile(fs: FileSystem, rootDirs: seq<Path>, normalizedPagePath: string,
                      pageExtensions: seq<Extension>, denormalize: string -> Path)
    returns (found: Option<Found>, warnings: seq<Warning>)
    ensures found == Resolve(fs, rootDirs, normalizedPagePath, denormalize(normalizedPagePath), pageExtensions)
    ensures warnings == ResolveWarnings(fs, rootDirs, normalizedPagePath, denormalize(normalizedPagePath), pageExtensions)
  {
    ghost var page := denormalize(normalizedPagePath);
    warnings := [];
    for index := 0 to |rootDirs|
      invariant Resolve(fs, rootDirs, normalizedPagePath, page, pageExtensions)
                == Resolve(fs, rootDirs[index..], normalizedPagePath, page, pageExtensions)
      invariant ResolveWarnings(fs, rootDirs, normalizedPagePath, page, pageExtensions)
                == warnings + ResolveWarnings(fs, rootDirs[index..], normalizedPagePath, page, pageExtensions)
    {
      var pageBase := rootDirs[index];
      assert rootDirs[index..][1..] == rootDirs[index + 1..];
      var pagePath, emitted := FindPageFileForRoot(fs, pageBase, normalizedPagePath, pageExtensions, denormalize);
      warnings := warnings + emitted;
      if pagePath.Some? {
        return Some(Found(pageBase, pagePath.value)), warnings;
      }
    }
    return None, warnings;
  }
}
