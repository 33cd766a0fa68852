# Page-file resolution, modelled in Dafny

This project models how the Next.js server finds the source file for a page
in `packages/next/server/lib/find-page-file.ts`. It takes a normalized
route such as `/blog/post`, a list of page root directories and a list of
page extensions. For each extension, in list order, it tests the direct file
`<page>.<ext>`; it skips that test when the route ends in `/index`. Then it
tests the index file `<page>/index.<ext>`. It records every candidate that
exists, in order. The result is the first recorded candidate, but only if
each of its segments is listed with exactly that case in its parent directory
(the true-case check). When two or more candidates were recorded and the
first one passed, it warns about a duplicate page. The roots are tried in
order, and the first root with a result wins.

Files:

- `path_model.dfy` (module `PathModel`): a path is a sequence of non-empty
  segments with no separator. Joining paths is sequence concatenation.
  Also defines extensions, `Option`, and `EndsWith`.
- `file_system.dfy` (module `FileSystemModel`): an abstract disk. It has the
  set of paths `fileExists` accepts and a listing per directory for `readdir`.
- `find_page_file.dfy` (module `FindPageFile`): the true-case predicate
  (a `map` to per-segment tests, then `every`). It also holds the
  specification functions for candidates, hits, the per-root result, warnings
  and the multi-root result. The two loops `FindPageFileForRoot` and
  `FindPageFile` are methods proved against those functions.
- `find_page_file_properties.dfy` (module `FindPageFileProperties`): the
  properties of the resolver, as lemmas.
- `scenarios.dfy` (module `Scenarios`): concrete resolutions on small disks.

Collaborators:

- `denormalizePagePath` is a parameter `denormalize: string -> Path` of the
  two methods. The specification functions and lemmas take the denormalized
  `page` as a free argument, so they hold for every denormalization.
- `fileExists` and `readdir` are queries on a `FileSystem` value. A
  case-insensitive disk is a `FileSystem` whose `existing` set holds every
  spelling that resolves, while its listings keep the on-disk spelling.
- `warn` is modelled by returning the emitted warnings as a sequence.

Points of the code's behaviour that the model keeps:

- The duplicate warning is emitted only after the first hit passes the case
  check (lines 50-62), not merely because two candidates exist.
- `findPageFile` tests `if (pagePath)`, which is truthiness, not a null
  check. A recorded candidate is never the empty string: it holds a `.` or
  `index.`. So the model's test that the result is present means the same.
- Extension order is outermost. With `about.tsx`, `about/index.tsx` and
  `about.js` on disk, `about.tsx` wins, and the warning names `about.tsx`
  and `about/index.tsx` (`Scenarios.DuplicateIsReported`). With only
  `about.js` and `about/index.tsx` on disk, `about/index.tsx` wins, and the
  warning names `about/index.tsx` then `about.js`
  (`Scenarios.ExtensionOrderBeatsDirectFile`).

## Model

The specification functions of `FindPageFile` (`Tested`, `Recorded`,
`ResolveInRoot`, `RootWarnings`, `Resolve` and `ResolveWarnings`) compute
what the source computes and carry no contract of their own. Each is stated
by the rows that name it: the two methods are proved equal to them, and the
lemmas below say what they promise. For example, `ResolveInRoot` (lines
46-64) is stated by `RootResultIsFirstHit` and `FirstHitWins`, and
`RootWarnings` (lines 54-62) by `DuplicateWarningIff`.

| member | source | states |
|---|---|---|
| `FindPageFile.FindPageFileForRoot` | packages/next/server/lib/find-page-file.ts:20-65 | Its result is the per-root result `ResolveInRoot` and its warnings are `RootWarnings`. The loop keeps `foundPagePaths` equal to the existing candidates among those tested so far, in test order. |
| `FindPageFile.FindPageFile` | packages/next/server/lib/find-page-file.ts:67-84 | Its result is `Resolve`, the first root with a result paired with that root. Its warnings are exactly those emitted by the roots it tried before returning. |
| `FindPageFile.Hits` | packages/next/server/lib/find-page-file.ts:34-42 | Never records more candidates than were tested. Every recorded candidate was tested and exists under the root. |
| `FindPageFile.HitsAppend` | packages/next/server/lib/find-page-file.ts:29-44 | Recording the hits of two candidate lists in a row gives the hits of the first list followed by the hits of the second. |
| `FindPageFile.HitsOfCandidates` | packages/next/server/lib/find-page-file.ts:30-43 | For one extension, the recorded hits are its direct file if the route is not an index route and the file exists, followed by its index file if that exists. |
| `FindPageFile.RecordedSnoc` | packages/next/server/lib/find-page-file.ts:29-44 | One more extension appends its direct file (if tested and present), then its index file (if present). |
| `FindPageFile.AllTrue` | packages/next/server/lib/find-page-file.ts:17 | `every(Boolean)`: holds iff every element is true, so in particular on the empty sequence. |
| `FindPageFile.IsTrueCasePagePath` | packages/next/server/lib/find-page-file.ts:8-18 | The true-case check maps each segment to its listing test and requires all of them. It holds iff every segment `i` is in the listing of the pages directory joined with segments `[0, i)`. |
| `FindPageFile.DirectCandidateText` | packages/next/server/lib/find-page-file.ts:31 | The direct candidate `DirectCandidate`, written out as a path, is the page followed by `.` and the extension (the empty page is written `/`), as the template `${page}.${extension}` builds it. |
| `FindPageFile.IndexCandidateText` | packages/next/server/lib/find-page-file.ts:39 | The index candidate `IndexCandidate`, written out, is the page followed by `/index.` and the extension, as `join(page, 'index.' + extension)` builds it. |
| `FindPageFileProperties.TrueCaseOfEmptyPath` | packages/next/server/lib/find-page-file.ts:9-17 | An empty segment list passes the true-case check. |
| `FindPageFileProperties.TrueCaseAppend` | packages/next/server/lib/find-page-file.ts:11-14 | `a + b` passes under `dir` iff `a` passes under `dir` and `b` passes under `dir + a`. |
| `FindPageFileProperties.TestedOrderDirect` | packages/next/server/lib/find-page-file.ts:29-44 | For a route not ending in `/index`, exactly `2·n` candidates are tested. Extension `j` has its direct file at `2j` and its index file at `2j+1`. |
| `FindPageFileProperties.TestedOrderIndex` | packages/next/server/lib/find-page-file.ts:29-44 | For a route ending in `/index`, exactly `n` candidates are tested, and candidate `j` is the index file of extension `j`. |
| `FindPageFileProperties.TestedAppend` | packages/next/server/lib/find-page-file.ts:29 | Testing a concatenation of extension lists tests the first list, then the second. |
| `FindPageFileProperties.TestedMember` | packages/next/server/lib/find-page-file.ts:29-44 | Every tested candidate is the direct or index candidate of some listed extension. |
| `FindPageFileProperties.DirectIsNotIndex` | packages/next/server/lib/find-page-file.ts:31-39 | A direct candidate never equals an index candidate of the same page, whatever the two extensions. |
| `FindPageFileProperties.IndexRouteRecordsOnlyIndexFiles` | packages/next/server/lib/find-page-file.ts:30-43 | For a route ending in `/index`, no direct candidate is tested or recorded, and every recorded path is the index file of some extension. |
| `FindPageFileProperties.HitsMembership` | packages/next/server/lib/find-page-file.ts:34-42 | A path is recorded iff it was tested and exists under the root. |
| `FindPageFileProperties.HitsAt` | packages/next/server/lib/find-page-file.ts:34-42 | An existing candidate is recorded right after the hits found before it. |
| `FindPageFileProperties.HitsKeepOrder` | packages/next/server/lib/find-page-file.ts:29-44 | Two existing candidates tested in the order `i < j` are recorded in the same order. |
| `FindPageFileProperties.FirstHitIsFirstExisting` | packages/next/server/lib/find-page-file.ts:29-44 | The first recorded candidate is the first tested candidate that exists. |
| `FindPageFileProperties.DirectRecordedBeforeIndex` | packages/next/server/lib/find-page-file.ts:30-43 | For a route not ending in `/index`, if an extension's direct and index files both exist, the direct file is recorded first. |
| `FindPageFileProperties.TestedPosition` | packages/next/server/lib/find-page-file.ts:29-44 | A candidate of extension `j` is tested at position `j` (index routes) or at `2j` or `2j+1` (other routes). |
| `FindPageFileProperties.EarlierExtensionRecordedFirst` | packages/next/server/lib/find-page-file.ts:29-44 | Extension order is outermost: an existing candidate of an earlier extension is recorded before one of a later extension. |
| `FindPageFileProperties.RootResultIsFirstHit` | packages/next/server/lib/find-page-file.ts:46-64 | The per-root result is present iff something was recorded and the first hit passes the case check. When present it is exactly the first hit, which was tested and exists under the root. |
| `FindPageFileProperties.NothingRecordedBefore` | packages/next/server/lib/find-page-file.ts:29-44 | If no candidate of the first `k` extensions exists, nothing is recorded for them. |
| `FindPageFileProperties.FirstHitWins` | packages/next/server/lib/find-page-file.ts:29-64 | Suppose no earlier extension has a candidate on disk and extension `k` does. Then the first hit is that extension's direct file when tested and present, else its index file. The result is that file iff it passes the case check. |
| `FindPageFileProperties.NoExtensionsNoPage` | packages/next/server/lib/find-page-file.ts:29-48 | With an empty extension list, the per-root result is absent and no warning is emitted. |
| `FindPageFileProperties.NoCandidateNoPage` | packages/next/server/lib/find-page-file.ts:46-48 | When no tested candidate exists, the per-root result is absent and no warning is emitted. |
| `FindPageFileProperties.HitsIgnoreListings` | packages/next/server/lib/find-page-file.ts:34-42 | Which candidates are recorded depends only on which paths exist, not on directory listings. |
| `FindPageFileProperties.OnlyFirstHitCaseChecked` | packages/next/server/lib/find-page-file.ts:50-52 | Take two disks with the same existing paths that agree on the case check of the first hit. They give the same result and warnings, whatever they list for the later hits. |
| `FindPageFileProperties.DuplicateWarningIff` | packages/next/server/lib/find-page-file.ts:50-62 | A warning is emitted iff at least two candidates were recorded and the first passed the case check. It names candidates 0 and 1 and the route. It comes with the result candidate 0. At most one warning is emitted per root. |
| `FindPageFileProperties.EarliestRootWins` | packages/next/server/lib/find-page-file.ts:72-81 | If roots `0..k-1` have no result and root `k` has result `p`, the overall result is `{pageBase: rootDirs[k], pagePath: p}`. |
| `FindPageFileProperties.ResultHasEarliestRoot` | packages/next/server/lib/find-page-file.ts:72-81 | Every overall result comes from a root index `k` whose per-root result it is and all of whose predecessors have none. |
| `FindPageFileProperties.NoPageIffNoRootFinds` | packages/next/server/lib/find-page-file.ts:72-83 | The overall result is absent iff every root's result is absent; in particular when there are no roots. |
| `FindPageFileProperties.WarningsComeFromWinningRoot` | packages/next/server/lib/find-page-file.ts:72-83 | Over all roots at most one warning is emitted. It is the warning of the root that produced the result, and none when nothing is found. |
| `Scenarios.AboutResolvesToJs` | packages/next/server/lib/find-page-file.ts:67-84 | With only `pages/about.js` on disk and extensions `tsx, js`, `/about` resolves to `about.js` under `pages` with no warning. |
| `Scenarios.DuplicateIsReported` | packages/next/server/lib/find-page-file.ts:54-64 | With `about.tsx`, `about/index.tsx` and `about.js` on disk, `about.tsx` wins. The warning names `about.tsx` and `about/index.tsx`. |
| `Scenarios.ExtensionOrderBeatsDirectFile` | packages/next/server/lib/find-page-file.ts:29-64 | With only `about.js` and `about/index.tsx` on disk and extensions `tsx, js`, `about/index.tsx` wins because `tsx` comes first. The warning names `about/index.tsx` then `about.js`. |
| `Scenarios.CaseMismatchIsRejected` | packages/next/server/lib/find-page-file.ts:50-52 | On a case-insensitive disk holding `About.js`, a request for `about` finds `about.js` but fails the case check. Nothing resolves and nothing is reported. |
| `Scenarios.EarlierRootWins` | packages/next/server/lib/find-page-file.ts:72-81 | When two roots both hold `about.js`, the first root is returned and no warning is emitted. |
| `Scenarios.IndexRouteUsesIndexFile` | packages/next/server/lib/find-page-file.ts:30-43 | For `/index` with the empty page, only `index.js` is tested. A stray `.js` is never considered. |

## Left out

- I/O failures: a `readdir` of a missing or unreadable directory rejects in the source, and the rejection propagates out of `findPageFile`. In the model such a directory lists as empty, so the segment fails the case check. Errors other than "not found" from `fileExists` are not modelled either. `packages/next/lib/file-exists.ts` is not part of this model.
- Concurrency: the per-segment `readdir` calls run concurrently under `Promise.all`. Only their conjunction matters, so the model checks them as a sequence. The `await`s are sequential steps.
- Platform path handling: `path.normalize` (including `.` and `..` resolution), `path.join` and `path.sep`. Paths are `/`-free segment sequences, so `split(sep).filter(Boolean)` is the identity on them.
- The internals of `denormalizePagePath`: `packages/next/next-server/server/normalize-page-path.ts` is not part of this model. It is a parameter.
- The returned `pagePath` is a segment sequence, not the literal string. In the source a direct hit is the unnormalized string `${page}.${ext}` with its leading `/`, and an index hit is a normalized `join`. For a denormalized page without a trailing separator (or the page `/` itself), both split to the segments the model returns (`DirectCandidateText`, `IndexCandidateText`).
- A denormalized page that ends in the separator, other than `/` itself (such as `/blog/`), is not represented. In the source its direct candidate is the dotfile `<page>/.<ext>` (`/blog/.js`, segments `blog` and `.js`), while `DirectCandidate` always appends the extension to the last segment. No single `page: Path` yields both of that page's candidates, so `denormalize: string -> Path` cannot express such a page.
- Extensions are strings without the separator (type `Extension`), so that `${page}.${ext}` stays one segment.
- The warning text: `chalk` colouring and the `pages/` prefix in the message. A warning is the value `DuplicatePage(first, second, route)`.
