/**
 * What the resolver promises: the order in which candidates are tested and
 * recorded, the index-suffix rule, first-hit-wins with the true-case check
 * applied to the first hit only, when the duplicate warning fires, and the
 * priority of the root directories.
 */
module FindPageFileProperties {
  import opened PathModel
  import opened FileSystemModel
  import opened FindPageFile

  // ---------------------------------------------------------------------
  // True-case check
  // ---------------------------------------------------------------------

  /** An empty page path passes the check on any disk. */
  lemma TrueCaseOfEmptyPath(fs: FileSystem, pagesDir: Path)
    ensures IsTrueCasePagePath(fs, [], pagesDir)
  {
  }

  /** The check walks down the directories: a path passes iff its head passes and its tail passes below it. */
  lemma TrueCaseAppend(fs: FileSystem, a: Path, b: Path, pagesDir: Path)
    ensures IsTrueCasePagePath(fs, a + b, pagesDir)
            <==> IsTrueCasePagePath(fs, a, pagesDir) && IsTrueCasePagePath(fs, b, pagesDir + a)
  {
    if IsTrueCasePagePath(fs, a + b, pagesDir) {
      TrueCaseOfPrefixes(fs, a, b, pagesDir);
    }
    if IsTrueCasePagePath(fs, a, pagesDir) && IsTrueCasePagePath(fs, b, pagesDir + a) {
      TrueCaseOfJoin(fs, a, b, pagesDir);
    }
  }

  /** If `a + b` passes under `dir`, then `a` passes under `dir` and `b` under `dir + a`. */
  lemma TrueCaseOfPrefixes(fs: FileSystem, a: Path, b: Path, pagesDir: Path)
    requires IsTrueCasePagePath(fs, a + b, pagesDir)
    ensures IsTrueCasePagePath(fs, a, pagesDir) && IsTrueCasePagePath(fs, b, pagesDir + a)
  {
    var ab := a + b;
    forall i | 0 <= i < |a|
      ensures a[i] in fs.ReadDir(pagesDir + a[..i])
    {
      assert ab[i] == a[i] && ab[..i] == a[..i];
    }
    forall i | 0 <= i < |b|
      ensures b[i] in fs.ReadDir(pagesDir + a + b[..i])
    {
      var m := |a| + i;
      assert ab[m] == b[i];
      assert ab[..m] == a + b[..i];
      assert pagesDir + ab[..m] == pagesDir + a + b[..i];
    }
  }

  /** If `a` passes under `dir` and `b` under `dir + a`, then `a + b` passes under `dir`. */
  lemma TrueCaseOfJoin(fs: FileSystem, a: Path, b: Path, pagesDir: Path)
    requires IsTrueCasePagePath(fs, a, pagesDir) && IsTrueCasePagePath(fs, b, pagesDir + a)
    ensures IsTrueCasePagePath(fs, a + b, pagesDir)
  {
    var ab := a + b;
    forall i | 0 <= i < |ab|
      ensures ab[i] in fs.ReadDir(pagesDir + ab[..i])
    {
      if i < |a| {
        assert a[i] in fs.ReadDir(pagesDir + a[..i]);
        assert ab[i] == a[i] && ab[..i] == a[..i];
      } else {
        var m := i - |a|;
        var below := pagesDir + a;
        assert b[m] in fs.ReadDir(below + b[..m]);
        assert ab[i] == b[m];
        assert ab[..i] == a + b[..m];
        assert pagesDir + ab[..i] == below + b[..m];
      }
    }
  }


  // ---------------------------------------------------------------------
  // Candidate order
  // ---------------------------------------------------------------------

  /** Ordinary routes: extension `j` contributes its direct file at `2j` and its index file at `2j + 1`. */
  lemma {:induction false} TestedOrderDirect(normalizedPagePath: string, page: Path, exts: seq<Extension>)
    requires !EndsWith(normalizedPagePath, IndexSuffix)
    ensures |Tested(normalizedPagePath, page, exts)| == 2 * |exts|
    ensures forall j :: 0 <= j < |exts| ==>
              Tested(normalizedPagePath, page, exts)[2 * j] == DirectCandidate(page, exts[j]) &&
              Tested(normalizedPagePath, page, exts)[2 * j + 1] == IndexCandidate(page, exts[j])
  {
    if exts != [] {
      var init := exts[..|exts| - 1];
      TestedOrderDirect(normalizedPagePath, page, init);
      var t := Tested(normalizedPagePath, page, exts);
      assert t == Tested(normalizedPagePath, page, init)
                  + [DirectCandidate(page, exts[|exts| - 1]), IndexCandidate(page, exts[|exts| - 1])];
      forall j | 0 <= j < |exts|
        ensures t[2 * j] == DirectCandidate(page, exts[j]) && t[2 * j + 1] == IndexCandidate(page, exts[j])
      {
        if j < |init| {
          assert exts[j] == init[j];
        }
      }
    }
  }

  /** Routes ending in "/index": extension `j` contributes only its index file, at `j`. */
  lemma {:induction false} TestedOrderIndex(normalizedPagePath: string, page: Path, exts: seq<Extension>)
    requires EndsWith(normalizedPagePath, IndexSuffix)
    ensures |Tested(normalizedPagePath, page, exts)| == |exts|
    ensures forall j :: 0 <= j < |exts| ==> Tested(normalizedPagePath, page, exts)[j] == IndexCandidate(page, exts[j])
  {
    if exts != [] {
      var init := exts[..|exts| - 1];
      TestedOrderIndex(normalizedPagePath, page, init);
      var t := Tested(normalizedPagePath, page, exts);
      assert t == Tested(normalizedPagePath, page, init) + [IndexCandidate(page, exts[|exts| - 1])];
      forall j | 0 <= j < |exts|
        ensures t[j] == IndexCandidate(page, exts[j])
      {
        if j < |init| {
          assert exts[j] == init[j];
        }
      }
    }
  }

  /** Testing a concatenation of extension lists tests one after the other. */
  lemma {:induction false} TestedAppend(normalizedPagePath: string, page: Path, a: seq<Extension>, b: seq<Extension>)
    ensures Tested(normalizedPagePath, page, a + b) == Tested(normalizedPagePath, page, a) + Tested(normalizedPagePath, page, b)
  {
    if b == [] {
      assert a + b == a;
    } else {
      var init := b[..|b| - 1];
      assert (a + b)[..|a + b| - 1] == a + init;
      assert (a + b)[|a + b| - 1] == b[|b| - 1];
      TestedAppend(normalizedPagePath, page, a, init);
    }
  }

  /** Every tested candidate belongs to one of the extensions, which is returned. */
  lemma {:induction false} TestedMember(normalizedPagePath: string, page: Path, exts: seq<Extension>, c: Path)
    returns (j: nat)
    requires c in Tested(normalizedPagePath, page, exts)
    ensures j < |exts| && c in CandidatesFor(normalizedPagePath, page, exts[j])
  {
    var init := exts[..|exts| - 1];
    if c in Tested(normalizedPagePath, page, init) {
      j := TestedMember(normalizedPagePath, page, init, c);
      assert exts[j] == init[j];
    } else {
      j := |exts| - 1;
    }
  }

  /** A direct candidate never coincides with an index candidate of the same page. */
  lemma DirectIsNotIndex(page: Path, e1: Extension, e2: Extension)
    ensures DirectCandidate(page, e1) != IndexCandidate(page, e2)
  {
    if page == [] {
      assert DirectCandidate(page, e1)[0][0] == '.';
      assert IndexCandidate(page, e2)[0][0] == 'i';
    } else {
      assert |DirectCandidate(page, e1)| == |page| < |IndexCandidate(page, e2)|;
    }
  }

  /** For a route ending in "/index" no direct file is tested, and only index files are recorded. */
  lemma IndexRouteRecordsOnlyIndexFiles(fs: FileSystem, rootDir: Path, normalizedPagePath: string, page: Path,
                                        exts: seq<Extension>)
    requires EndsWith(normalizedPagePath, IndexSuffix)
    ensures forall e: Extension :: DirectCandidate(page, e) !in Tested(normalizedPagePath, page, exts)
    ensures forall e: Extension :: DirectCandidate(page, e) !in Recorded(fs, rootDir, normalizedPagePath, page, exts)
    ensures forall c :: c in Recorded(fs, rootDir, normalizedPagePath, page, exts) ==>
              exists j :: 0 <= j < |exts| && c == IndexCandidate(page, exts[j])
  {
    TestedOrderIndex(normalizedPagePath, page, exts);
    var t := Tested(normalizedPagePath, page, exts);
    forall e: Extension
      ensures DirectCandidate(page, e) !in t
    {
      forall k | 0 <= k < |t|
        ensures t[k] != DirectCandidate(page, e)
      {
        DirectIsNotIndex(page, e, exts[k]);
      }
    }
    forall c | c in Recorded(fs, rootDir, normalizedPagePath, page, exts)
      ensures exists j :: 0 <= j < |exts| && c == IndexCandidate(page, exts[j])
    {
      var k :| 0 <= k < |t| && t[k] == c;
      assert c == IndexCandidate(page, exts[k]);
    }
  }

  // ---------------------------------------------------------------------
  // Recording hits
  // ---------------------------------------------------------------------

  /** A candidate is recorded iff it was tested and exists under the root. */
  lemma {:induction false} HitsMembership(fs: FileSystem, rootDir: Path, cands: seq<Path>, c: Path)
    ensures c in Hits(fs, rootDir, cands) <==> c in cands && fs.FileExists(rootDir + c)
  {
    if cands != [] {
      HitsMembership(fs, rootDir, cands[1..], c);
      assert cands == [cands[0]] + cands[1..];
    }
  }

  /** A candidate that exists lands in the recorded list right after the hits found before it. */
  lemma HitsAt(fs: FileSystem, rootDir: Path, cands: seq<Path>, i: nat)
    requires i < |cands| && fs.FileExists(rootDir + cands[i])
    ensures |Hits(fs, rootDir, cands[..i])| < |Hits(fs, rootDir, cands)|
    ensures Hits(fs, rootDir, cands)[|Hits(fs, rootDir, cands[..i])|] == cands[i]
  {
    assert cands == cands[..i] + cands[i..];
    HitsAppend(fs, rootDir, cands[..i], cands[i..]);
    assert cands[i..][0] == cands[i];
  }

  /** Recording keeps the test order: existing candidates at `i < j` are recorded in that order. */
  lemma HitsKeepOrder(fs: FileSystem, rootDir: Path, cands: seq<Path>, i: nat, j: nat)
    requires i < j < |cands|
    requires fs.FileExists(rootDir + cands[i]) && fs.FileExists(rootDir + cands[j])
    ensures exists a, b :: 0 <= a < b < |Hits(fs, rootDir, cands)| &&
              Hits(fs, rootDir, cands)[a] == cands[i] && Hits(fs, rootDir, cands)[b] == cands[j]
  {
    HitsAt(fs, rootDir, cands, i);
    HitsAt(fs, rootDir, cands, j);
    var prefix := cands[..j];
    assert prefix == cands[..i] + cands[i..j];
    HitsAppend(fs, rootDir, cands[..i], cands[i..j]);
    assert cands[i..j][0] == cands[i];
    assert |Hits(fs, rootDir, cands[..i])| < |Hits(fs, rootDir, prefix)|;
  }

  /** The first recorded candidate is the first tested candidate that exists. */
  lemma FirstHitIsFirstExisting(fs: FileSystem, rootDir: Path, cands: seq<Path>, k: nat)
    requires k < |cands| && fs.FileExists(rootDir + cands[k])
    requires forall m :: 0 <= m < k ==> !fs.FileExists(rootDir + cands[m])
    ensures Hits(fs, rootDir, cands) != [] && Hits(fs, rootDir, cands)[0] == cands[k]
  {
    HitsAt(fs, rootDir, cands, k);
    if Hits(fs, rootDir, cands[..k]) != [] {
      var c := Hits(fs, rootDir, cands[..k])[0];
      HitsMembership(fs, rootDir, cands[..k], c);
      assert false;
    }
  }

  /** Within one extension of an ordinary route, the direct file is recorded before the index file. */
  lemma DirectRecordedBeforeIndex(fs: FileSystem, rootDir: Path, normalizedPagePath: string, page: Path,
                                  exts: seq<Extension>, j: nat)
    requires !EndsWith(normalizedPagePath, IndexSuffix) && j < |exts|
    requires fs.FileExists(rootDir + DirectCandidate(page, exts[j]))
    requires fs.FileExists(rootDir + IndexCandidate(page, exts[j]))
    ensures var found := Recorded(fs, rootDir, normalizedPagePath, page, exts);
            exists a, b :: 0 <= a < b < |found| &&
              found[a] == DirectCandidate(page, exts[j]) && found[b] == IndexCandidate(page, exts[j])
  {
    TestedOrderDirect(normalizedPagePath, page, exts);
    assert Recorded(fs, rootDir, normalizedPagePath, page, exts) == Hits(fs, rootDir, Tested(normalizedPagePath, page, exts));
    HitsKeepOrder(fs, rootDir, Tested(normalizedPagePath, page, exts), 2 * j, 2 * j + 1);
  }

  /** Position in the tested list of a candidate of extension `j`. */
  lemma TestedPosition(normalizedPagePath: string, page: Path, exts: seq<Extension>, j: nat, c: Path)
    returns (k: nat)
    requires j < |exts| && c in CandidatesFor(normalizedPagePath, page, exts[j])
    ensures k < |Tested(normalizedPagePath, page, exts)| && Tested(normalizedPagePath, page, exts)[k] == c
    ensures if EndsWith(normalizedPagePath, IndexSuffix) then k == j else 2 * j <= k <= 2 * j + 1
  {
    if EndsWith(normalizedPagePath, IndexSuffix) {
      TestedOrderIndex(normalizedPagePath, page, exts);
      k := j;
    } else {
      TestedOrderDirect(normalizedPagePath, page, exts);
      k := if c == DirectCandidate(page, exts[j]) then 2 * j else 2 * j + 1;
    }
  }

  /** Extension order is outermost: a hit for an earlier extension is recorded before one for a later. */
  lemma EarlierExtensionRecordedFirst(fs: FileSystem, rootDir: Path, normalizedPagePath: string, page: Path,
                                      exts: seq<Extension>, i: nat, j: nat, c1: Path, c2: Path)
    requires i < j < |exts|
    requires c1 in CandidatesFor(normalizedPagePath, page, exts[i]) && fs.FileExists(rootDir + c1)
    requires c2 in CandidatesFor(normalizedPagePath, page, exts[j]) && fs.FileExists(rootDir + c2)
    ensures var found := Recorded(fs, rootDir, normalizedPagePath, page, exts);
            exists a, b :: 0 <= a < b < |found| && found[a] == c1 && found[b] == c2
  {
    var k1 := TestedPosition(normalizedPagePath, page, exts, i, c1);
    var k2 := TestedPosition(normalizedPagePath, page, exts, j, c2);
    assert Recorded(fs, rootDir, normalizedPagePath, page, exts) == Hits(fs, rootDir, Tested(normalizedPagePath, page, exts));
    HitsKeepOrder(fs, rootDir, Tested(normalizedPagePath, page, exts), k1, k2);
  }

  // ---------------------------------------------------------------------
  // Per-root result
  // ---------------------------------------------------------------------

  /** The result is absent or exactly the first recorded candidate, which exists under the root and passed the case check. */
  lemma RootResultIsFirstHit(fs: FileSystem, rootDir: Path, normalizedPagePath: string, page: Path,
                             exts: seq<Extension>)
    ensures var r := ResolveInRoot(fs, rootDir, normalizedPagePath, page, exts);
            var found := Recorded(fs, rootDir, normalizedPagePath, page, exts);
            && (r.Some? <==> found != [] && IsTrueCasePagePath(fs, found[0], rootDir))
            && (r.Some? ==> r.value == found[0]
                            && r.value in Tested(normalizedPagePath, page, exts)
                            && fs.FileExists(rootDir + r.value))
  {
  }

  /** None of the first `k` extensions has a candidate on disk. */
  ghost predicate NoHitBefore(fs: FileSystem, rootDir: Path, normalizedPagePath: string, page: Path,
                              exts: seq<Extension>, k: nat)
    requires k <= |exts|
  {
    forall j :: 0 <= j < k ==>
      && !fs.FileExists(rootDir + IndexCandidate(page, exts[j]))
      && (!EndsWith(normalizedPagePath, IndexSuffix) ==> !fs.FileExists(rootDir + DirectCandidate(page, exts[j])))
  }

  /** When the first `k` extensions have no candidate on disk, nothing is recorded for them. */
  lemma NothingRecordedBefore(fs: FileSystem, rootDir: Path, normalizedPagePath: string, page: Path,
                              exts: seq<Extension>, k: nat)
    requires k <= |exts| && NoHitBefore(fs, rootDir, normalizedPagePath, page, exts, k)
    ensures Hits(fs, rootDir, Tested(normalizedPagePath, page, exts[..k])) == []
  {
    var t := Tested(normalizedPagePath, page, exts[..k]);
    if Hits(fs, rootDir, t) != [] {
      var c := Hits(fs, rootDir, t)[0];
      HitsMembership(fs, rootDir, t, c);
      var j := TestedMember(normalizedPagePath, page, exts[..k], c);
      assert false;
    }
  }

  /**
   * First hit wins: when no candidate of an earlier extension exists and one
   * of extension `k` does, the first recorded candidate is that extension's
   * direct file (when tested and present) or else its index file, and it is
   * the result iff it passes the case check.
   */
  lemma FirstHitWins(fs: FileSystem, rootDir: Path, normalizedPagePath: string, page: Path,
                     exts: seq<Extension>, k: nat)
    requires k < |exts| && NoHitBefore(fs, rootDir, normalizedPagePath, page, exts, k)
    requires (!EndsWith(normalizedPagePath, IndexSuffix) && fs.FileExists(rootDir + DirectCandidate(page, exts[k])))
             || fs.FileExists(rootDir + IndexCandidate(page, exts[k]))
    ensures var first := if !EndsWith(normalizedPagePath, IndexSuffix) && fs.FileExists(rootDir + DirectCandidate(page, exts[k]))
                         then DirectCandidate(page, exts[k]) else IndexCandidate(page, exts[k]);
            && Recorded(fs, rootDir, normalizedPagePath, page, exts) != []
            && Recorded(fs, rootDir, normalizedPagePath, page, exts)[0] == first
            && ResolveInRoot(fs, rootDir, normalizedPagePath, page, exts)
               == (if IsTrueCasePagePath(fs, first, rootDir) then Some(first) else None)
  {
    FirstHitRecorded(fs, rootDir, normalizedPagePath, page, exts, k);
  }

  /** The recording half of `FirstHitWins`: the first hit is extension `k`'s first existing candidate. */
  lemma FirstHitRecorded(fs: FileSystem, rootDir: Path, normalizedPagePath: string, page: Path,
                         exts: seq<Extension>, k: nat)
    requires k < |exts| && NoHitBefore(fs, rootDir, normalizedPagePath, page, exts, k)
    requires (!EndsWith(normalizedPagePath, IndexSuffix) && fs.FileExists(rootDir + DirectCandidate(page, exts[k])))
             || fs.FileExists(rootDir + IndexCandidate(page, exts[k]))
    ensures var found := Recorded(fs, rootDir, normalizedPagePath, page, exts);
            && found != []
            && found[0] == if !EndsWith(normalizedPagePath, IndexSuffix) && fs.FileExists(rootDir + DirectCandidate(page, exts[k]))
                           then DirectCandidate(page, exts[k]) else IndexCandidate(page, exts[k])
  {
    var d, x := DirectCandidate(page, exts[k]), IndexCandidate(page, exts[k]);
    var own := Hits(fs, rootDir, CandidatesFor(normalizedPagePath, page, exts[k]));
    var later := Hits(fs, rootDir, Tested(normalizedPagePath, page, exts[k + 1..]));
    FirstOwnHitsLead(fs, rootDir, normalizedPagePath, page, exts, k);
    RecordedSplit(fs, rootDir, normalizedPagePath, page, exts, k + 1);
    HitsOfCandidates(fs, rootDir, normalizedPagePath, page, exts[k]);
    assert own != [] && own[0] == if !EndsWith(normalizedPagePath, IndexSuffix) && fs.FileExists(rootDir + d) then d else x;
    assert (own + later)[0] == own[0];
  }

  /** With no hit before extension `k`, the hits up to and including `k` are just those of extension `k`. */
  lemma FirstOwnHitsLead(fs: FileSystem, rootDir: Path, normalizedPagePath: string, page: Path,
                         exts: seq<Extension>, k: nat)
    requires k < |exts| && NoHitBefore(fs, rootDir, normalizedPagePath, page, exts, k)
    ensures Hits(fs, rootDir, Tested(normalizedPagePath, page, exts[..k + 1]))
            == Hits(fs, rootDir, CandidatesFor(normalizedPagePath, page, exts[k]))
  {
    var before := Tested(normalizedPagePath, page, exts[..k]);
    var own := CandidatesFor(normalizedPagePath, page, exts[k]);
    NothingRecordedBefore(fs, rootDir, normalizedPagePath, page, exts, k);
    TestedSnoc(normalizedPagePath, page, exts, k);
    HitsAppend(fs, rootDir, before, own);
    assert [] + Hits(fs, rootDir, own) == Hits(fs, rootDir, own);
  }


  /** The hits of all extensions are those of the first `k` followed by those of the rest. */
  lemma RecordedSplit(fs: FileSystem, rootDir: Path, normalizedPagePath: string, page: Path,
                      exts: seq<Extension>, k: nat)
    requires k <= |exts|
    ensures Recorded(fs, rootDir, normalizedPagePath, page, exts)
            == Hits(fs, rootDir, Tested(normalizedPagePath, page, exts[..k]))
               + Hits(fs, rootDir, Tested(normalizedPagePath, page, exts[k..]))
  {
    assert exts == exts[..k] + exts[k..];
    TestedAppend(normalizedPagePath, page, exts[..k], exts[k..]);
    HitsAppend(fs, rootDir, Tested(normalizedPagePath, page, exts[..k]), Tested(normalizedPagePath, page, exts[k..]));
  }



  /** With no extensions nothing is found and nothing is reported. */
  lemma NoExtensionsNoPage(fs: FileSystem, rootDir: Path, normalizedPagePath: string, page: Path)
    ensures ResolveInRoot(fs, rootDir, normalizedPagePath, page, []) == None
    ensures RootWarnings(fs, rootDir, normalizedPagePath, page, []) == []
  {
  }

  /** When no tested candidate exists, nothing is found and nothing is reported. */
  lemma NoCandidateNoPage(fs: FileSystem, rootDir: Path, normalizedPagePath: string, page: Path,
                          exts: seq<Extension>)
    requires forall c :: c in Tested(normalizedPagePath, page, exts) ==> !fs.FileExists(rootDir + c)
    ensures ResolveInRoot(fs, rootDir, normalizedPagePath, page, exts) == None
    ensures RootWarnings(fs, rootDir, normalizedPagePath, page, exts) == []
  {
    var found := Recorded(fs, rootDir, normalizedPagePath, page, exts);
    if found != [] {
      HitsMembership(fs, rootDir, Tested(normalizedPagePath, page, exts), found[0]);
    }
  }

  /** Recording depends on the disk only through which paths exist. */
  lemma {:induction false} HitsIgnoreListings(fs1: FileSystem, fs2: FileSystem, rootDir: Path, cands: seq<Path>)
    requires fs1.existing == fs2.existing
    ensures Hits(fs1, rootDir, cands) == Hits(fs2, rootDir, cands)
  {
    if cands != [] {
      HitsIgnoreListings(fs1, fs2, rootDir, cands[1..]);
    }
  }

  /**
   * Only the first hit is case-checked: two disks with the same existing
   * paths that agree on the case check of the first hit give the same result
   * and the same warnings, whatever they list for the later hits.
   */
  lemma OnlyFirstHitCaseChecked(fs1: FileSystem, fs2: FileSystem, rootDir: Path, normalizedPagePath: string,
                                page: Path, exts: seq<Extension>)
    requires fs1.existing == fs2.existing
    requires var found := Recorded(fs1, rootDir, normalizedPagePath, page, exts);
             found != [] ==> (IsTrueCasePagePath(fs1, found[0], rootDir) <==> IsTrueCasePagePath(fs2, found[0], rootDir))
    ensures ResolveInRoot(fs1, rootDir, normalizedPagePath, page, exts)
            == ResolveInRoot(fs2, rootDir, normalizedPagePath, page, exts)
    ensures RootWarnings(fs1, rootDir, normalizedPagePath, page, exts)
            == RootWarnings(fs2, rootDir, normalizedPagePath, page, exts)
  {
    HitsIgnoreListings(fs1, fs2, rootDir, Tested(normalizedPagePath, page, exts));
  }

  /**
   * The duplicate warning is emitted iff at least two candidates were
   * recorded and the first passed the case check; it names the first two and
   * the route, and it comes only with a result, which is the first it names.
   */
  lemma DuplicateWarningIff(fs: FileSystem, rootDir: Path, normalizedPagePath: string, page: Path,
                            exts: seq<Extension>)
    ensures var found := Recorded(fs, rootDir, normalizedPagePath, page, exts);
            var w := RootWarnings(fs, rootDir, normalizedPagePath, page, exts);
            && (w != [] <==> |found| >= 2 && IsTrueCasePagePath(fs, found[0], rootDir))
            && (w != [] ==> w == [DuplicatePage(found[0], found[1], normalizedPagePath)]
                            && ResolveInRoot(fs, rootDir, normalizedPagePath, page, exts) == Some(found[0]))
            && |w| <= 1
  {
  }

  // ---------------------------------------------------------------------
  // Root priority
  // ---------------------------------------------------------------------

  /** The smallest root index with a result wins, paired with that root. */
  lemma {:induction false} EarliestRootWins(fs: FileSystem, rootDirs: seq<Path>, normalizedPagePath: string,
                                             page: Path, exts: seq<Extension>, k: nat, pagePath: Path)
    requires k < |rootDirs|
    requires forall j :: 0 <= j < k ==> ResolveInRoot(fs, rootDirs[j], normalizedPagePath, page, exts).None?
    requires ResolveInRoot(fs, rootDirs[k], normalizedPagePath, page, exts) == Some(pagePath)
    ensures Resolve(fs, rootDirs, normalizedPagePath, page, exts) == Some(Found(rootDirs[k], pagePath))
  {
    if k > 0 {
      assert ResolveInRoot(fs, rootDirs[0], normalizedPagePath, page, exts).None?;
      forall j | 0 <= j < k - 1
        ensures ResolveInRoot(fs, rootDirs[1..][j], normalizedPagePath, page, exts).None?
      {
        assert rootDirs[1..][j] == rootDirs[j + 1];
      }
      EarliestRootWins(fs, rootDirs[1..], normalizedPagePath, page, exts, k - 1, pagePath);
    }
  }

  /** A result always comes from some root index `k` whose predecessors all found nothing. */
  lemma {:induction false} ResultHasEarliestRoot(fs: FileSystem, rootDirs: seq<Path>, normalizedPagePath: string,
                                                  page: Path, exts: seq<Extension>)
    ensures var r := Resolve(fs, rootDirs, normalizedPagePath, page, exts);
            r.Some? ==> exists k :: 0 <= k < |rootDirs| && rootDirs[k] == r.value.pageBase
                          && ResolveInRoot(fs, rootDirs[k], normalizedPagePath, page, exts) == Some(r.value.pagePath)
                          && forall j :: 0 <= j < k ==> ResolveInRoot(fs, rootDirs[j], normalizedPagePath, page, exts).None?
  {
    var r := Resolve(fs, rootDirs, normalizedPagePath, page, exts);
    if rootDirs != [] && r.Some? && ResolveInRoot(fs, rootDirs[0], normalizedPagePath, page, exts).None? {
      var rest := rootDirs[1..];
      ResultHasEarliestRoot(fs, rest, normalizedPagePath, page, exts);
      var k :| 0 <= k < |rest| && rest[k] == r.value.pageBase
               && ResolveInRoot(fs, rest[k], normalizedPagePath, page, exts) == Some(r.value.pagePath)
               && forall j :: 0 <= j < k ==> ResolveInRoot(fs, rest[j], normalizedPagePath, page, exts).None?;
      assert rootDirs[k + 1] == rest[k];
      forall j | 0 <= j < k + 1
        ensures ResolveInRoot(fs, rootDirs[j], normalizedPagePath, page, exts).None?
      {
        if j > 0 {
          assert rootDirs[j] == rest[j - 1];
        }
      }
      assert 0 <= k + 1 < |rootDirs| && rootDirs[k + 1] == r.value.pageBase
             && ResolveInRoot(fs, rootDirs[k + 1], normalizedPagePath, page, exts) == Some(r.value.pagePath);
    }
  }

  /** Nothing is found iff every root finds nothing; in particular with no roots. */
  lemma NoPageIffNoRootFinds(fs: FileSystem, rootDirs: seq<Path>, normalizedPagePath: string,
                             page: Path, exts: seq<Extension>)
    ensures Resolve(fs, rootDirs, normalizedPagePath, page, exts).None?
            <==> forall k :: 0 <= k < |rootDirs| ==> ResolveInRoot(fs, rootDirs[k], normalizedPagePath, page, exts).None?
    ensures rootDirs == [] ==> Resolve(fs, rootDirs, normalizedPagePath, page, exts).None?
  {
    if Resolve(fs, rootDirs, normalizedPagePath, page, exts).None? {
      forall k | 0 <= k < |rootDirs|
        ensures ResolveInRoot(fs, rootDirs[k], normalizedPagePath, page, exts).None?
      {
        NoPageMeansRootFindsNothing(fs, rootDirs, normalizedPagePath, page, exts, k);
      }
    } else {
      ResultHasEarliestRoot(fs, rootDirs, normalizedPagePath, page, exts);
    }
  }

  /** When nothing is found, root `k` in particular finds nothing. */
  lemma {:induction false} NoPageMeansRootFindsNothing(fs: FileSystem, rootDirs: seq<Path>, normalizedPagePath: string,
                                                       page: Path, exts: seq<Extension>, k: nat)
    requires k < |rootDirs| && Resolve(fs, rootDirs, normalizedPagePath, page, exts).None?
    ensures ResolveInRoot(fs, rootDirs[k], normalizedPagePath, page, exts).None?
  {
    assert ResolveInRoot(fs, rootDirs[0], normalizedPagePath, page, exts).None?;
    if k > 0 {
      var rest := rootDirs[1..];
      assert Resolve(fs, rest, normalizedPagePath, page, exts).None?;
      NoPageMeansRootFindsNothing(fs, rest, normalizedPagePath, page, exts, k - 1);
      assert rest[k - 1] == rootDirs[k];
    }
  }

  /** At most one warning is emitted overall, and only by the root that produced the result. */
  lemma {:induction false} WarningsComeFromWinningRoot(fs: FileSystem, rootDirs: seq<Path>, normalizedPagePath: string,
                                                        page: Path, exts: seq<Extension>)
    ensures var w := ResolveWarnings(fs, rootDirs, normalizedPagePath, page, exts);
            && |w| <= 1
            && w == match Resolve(fs, rootDirs, normalizedPagePath, page, exts)
                    case None => []
                    case Some(f) => RootWarnings(fs, f.pageBase, normalizedPagePath, page, exts)
  {
    if rootDirs != [] {
      DuplicateWarningIff(fs, rootDirs[0], normalizedPagePath, page, exts);
      WarningsComeFromWinningRoot(fs, rootDirs[1..], normalizedPagePath, page, exts);
    }
  }
}
