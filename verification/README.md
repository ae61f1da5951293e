# OpenMesh API: Apple App Site Association worker, in Dafny

The OpenMesh API worker serves the Apple App Site Association (AASA) file that
tells iOS which web paths open the OpenMesh app as Universal Links. It also
serves a health check and a default service description. Everything it does
happens in `src/index.ts`. This project models the three pure parts of that
file and proves properties about them:

- **Path normalisation** (`normalizePaths`). Entries that are the empty string
  are skipped. Every other entry is trimmed and given a leading `/` if it lacks
  one. Duplicates are then removed, keeping first occurrences in order, as
  `Array.from(new Set(out))` does.
- **Document construction** (`buildAASA`).
  - `IOS_TEAM_ID` and `IOS_BUNDLE_ID` fall back to `"TEAMID"` and
    `"com.MeshNetProtocol.OpenMesh.OpenMesh"` when they are unset or empty.
    The value is trimmed after the fallback.
  - The app identifier is `team + "." + bundle`.
  - `UL_PATHS` (default `"/callback"`) is split on `,`. Each piece is trimmed,
    empty pieces are dropped, and the rest is normalised.
  - Each base path is expanded into itself and its wildcard forms.
- **Routing** (`fetch`). The handler makes a first-match decision on the method
  and the pathname. It answers with a CORS preflight (204), the AASA document,
  the health report, or the default description. The last three all use
  status 200.

Strings are `seq<char>`. An environment binding is an `Option<string>`. The
document is an immutable datatype.

Modules, one per file:

| file | module | models |
|---|---|---|
| `wrappers.dfy` | `Wrappers` | `Option`, for an environment binding that may be unset |
| `strings.dfy` | `Strings` | `trim`, `split`, `startsWith`/`endsWith` |
| `sequences.dfy` | `Sequences` | `Array.from(new Set(xs))` |
| `paths.dfy` | `PathNormalizer` | `normalizePaths` |
| `glob.dfy` | `Glob` | how Apple reads a `paths` entry (`*`, `?`) |
| `aasa.dfy` | `AasaBuilder` | `buildAASA` |
| `router.dfy` | `Router` | the decision inside `fetch` |

`Glob` is not in the source. It states what the generated `paths` mean to
Apple's matcher: `*` matches any run of characters and `?` matches exactly one.
With it, the model can state how far the comment "allow exact + wildcard under
it" (src/index.ts:37) holds. The pattern set built for a wildcard-free base
path matches exactly the URL paths that begin with that base path. That
includes sibling paths that are not under it: the block for `/callback` also
matches `/callbackfoo`. It happens because the entry `${bp}*` (src/index.ts:43)
already matches everything that the entry with `/` before the `*`
(src/index.ts:44) matches.

Where this description and the code could be read differently, the model
follows the code:

- `normalizePaths` checks for an empty entry (`if (!p) continue;`) *before*
  trimming it. An entry made only of whitespace is therefore kept and becomes
  `"/"` (`PathNormalizer.WhitespaceEntryBecomesRoot`). It is not dropped.
  `buildAASA` never passes such an entry, because it trims and filters the
  pieces first.
- The fallback defaults also apply before trimming. A team identifier made
  only of whitespace trims to `""` and gives an app identifier that starts
  with `.` (`AasaBuilder.WhitespaceTeamId`).
- A base path that ends in `/` expands to `[bp, bp + "*", bp + "*"]`. The
  duplicate is kept, as the code does.

## Model

| member | source | states |
|---|---|---|
| `Strings.Trim` | src/index.ts:21 | The trimmed string neither starts nor ends with whitespace and is no longer than the input |
| `Strings.TrimIsTrimOf` | src/index.ts:21 | `trim` removes exactly a whitespace prefix and a whitespace suffix: the result is a contiguous piece of the input with only whitespace around it |
| `Strings.TrimOfUnique` | src/index.ts:21 | The declarative description of trimming fixes the result, so any two strings that meet it are equal |
| `Strings.TrimIdempotent` | src/index.ts:34 | Trimming an already-trimmed piece again, as `normalizePaths` does, changes nothing |
| `Strings.TrimIdentity` | src/index.ts:30-31 | A string with no whitespace at either end is its own trim. This applies to both default identifiers |
| `Strings.TrimAllWhitespace` | src/index.ts:30 | A string made only of whitespace trims to the empty string |
| `Strings.TrimChars` | src/index.ts:21 | Trimming introduces no character |
| `Strings.Split` | src/index.ts:34 | `split(",")` yields at least one piece, no piece contains the separator, and joining the pieces with the separator gives back the input |
| `Strings.SplitJoin` | src/index.ts:34 | Splitting undoes joining for separator-free pieces, so `split` and join are mutual inverses |
| `Strings.SplitCount` | src/index.ts:34 | `split` yields exactly one piece more than there are separators |
| `Strings.SplitPiece` | src/index.ts:34 | A separator-free piece followed by the separator comes off as the first piece of the split |
| `Strings.SplitWithoutSeparator` | src/index.ts:34 | A string without the separator splits into itself alone. `"/callback"` is one such string |
| `Strings.SplitChars` | src/index.ts:34 | Every character of a piece occurs in the split string |
| `Strings.EndsWith` | src/index.ts:44 | `endsWith` holds only when the suffix fits, and then the last characters agree |
| `Strings.EndsWithConcat` | src/index.ts:44 | `s.endsWith(suffix)` holds exactly when `s` is some string followed by `suffix` |
| `Sequences.Dedup` | src/index.ts:26 | `Array.from(new Set(out))` has no duplicates and holds exactly the elements of `out`, ordered by their first occurrence in `out` |
| `Sequences.DedupUnique` | src/index.ts:26 | Only one sequence meets that description, so it pins down the result |
| `Sequences.DedupNoDuplicates` | src/index.ts:26 | A list without duplicates passes through the set unchanged |
| `Sequences.CountNoDuplicates` | src/index.ts:26 | In a list without duplicates an element occurs once if present and never otherwise |
| `PathNormalizer.NormalizeEntry` | src/index.ts:21-22 | An entry becomes its trimmed form, or `/` followed by it. The result always starts with `/`, and it is the trimmed form itself exactly when that form already starts with `/`, so no second slash is added |
| `PathNormalizer.NormalizeEntryIdempotent` | src/index.ts:21-22 | Normalising a normalised entry changes nothing |
| `PathNormalizer.NormalizeEntryChars` | src/index.ts:21-22 | Normalising adds no character other than `/` |
| `PathNormalizer.Kept` | src/index.ts:20 | `if (!p) continue;` skips the empty entry. Every entry whose trimmed form is non-empty is kept |
| `PathNormalizer.WhitespaceEntryBecomesRoot` | src/index.ts:20-22 | A non-empty entry made only of whitespace is kept and becomes `"/"` |
| `PathNormalizer.Pushed` | src/index.ts:18-25 | The loop's `out` holds exactly the normal forms of the non-empty entries, each starting with `/`, and is no longer than the input |
| `PathNormalizer.PushedSingle` | src/index.ts:19-25 | One entry pushes its normal form if kept and nothing otherwise |
| `PathNormalizer.PushedAppend` | src/index.ts:19-25 | `out` for a concatenation is the two `out`s one after the other. With `PushedSingle` this fixes `out`: the normal forms of the kept entries, in input order, repetitions included |
| `PathNormalizer.PushedAllKept` | src/index.ts:19-25 | When no entry is empty, `out` has one element per entry, in input order, each the normal form of its entry |
| `PathNormalizer.Normalize` | src/index.ts:17-27 | `normalizePaths` has no duplicates and every element starts with `/`. It holds exactly the normal forms of the non-empty entries, in order of first occurrence in `out` |
| `PathNormalizer.NormalizePaths` | src/index.ts:17-27 | The source's loop, followed by insertion into a set, computes `Normalize` |
| `AasaBuilder.OrDefault` | src/index.ts:30-31 | `v \|\| d` yields `d` for an unset or empty binding and the binding otherwise. It is never empty when `d` is not empty |
| `AasaBuilder.TeamId` | src/index.ts:30 | The team identifier neither starts nor ends with whitespace |
| `AasaBuilder.BundleId` | src/index.ts:31 | The bundle identifier neither starts nor ends with whitespace |
| `AasaBuilder.AppId` | src/index.ts:32 | The app identifier is the team identifier, one `.`, then the bundle identifier, with nothing else |
| `AasaBuilder.AppIdFields` | src/index.ts:32 | The app identifier comes apart again when the team identifier has no dot. Its first dot-separated field is the team identifier, and the remaining fields join back into the bundle identifier |
| `AasaBuilder.DefaultAppId` | src/index.ts:30-32 | With both identifiers unset or empty, the app identifier is the default team, a dot, and the default bundle, which is `"TEAMID.com.MeshNetProtocol.OpenMesh.OpenMesh"` |
| `AasaBuilder.WhitespaceTeamId` | src/index.ts:30-32 | A whitespace-only team identifier escapes the default and trims to `""`, so the app identifier is `"." + bundle` |
| `AasaBuilder.TrimNonEmpty` | src/index.ts:34 | `.map(trim).filter(Boolean)` keeps exactly the non-empty trimmed pieces, each non-empty and free of surrounding whitespace |
| `AasaBuilder.TrimNonEmptySingle` | src/index.ts:34 | One piece contributes its trimmed form, or nothing when that is empty |
| `AasaBuilder.TrimNonEmptyAppend` | src/index.ts:34 | The result for a concatenation is the two results one after the other. With `TrimNonEmptySingle` this fixes the raw paths: they follow the order of `UL_PATHS`, repetitions included |
| `AasaBuilder.RawPaths` | src/index.ts:34 | Every raw path is non-empty and free of surrounding whitespace |
| `AasaBuilder.RawPathChars` | src/index.ts:34 | Every character of a raw path comes from the `UL_PATHS` value in force |
| `AasaBuilder.RawPathsNoSeparator` | src/index.ts:34 | No raw path contains `,` |
| `AasaBuilder.BasePaths` | src/index.ts:35 | The base paths are the normal forms of the raw paths, with duplicates removed, in the order of first occurrence |
| `AasaBuilder.NormalizeEachSource` | src/index.ts:19-24 | Every entry of the per-position normal forms is the normal form of some input entry |
| `AasaBuilder.BasePathsWellFormed` | src/index.ts:34-35 | The base paths reaching the loop are distinct, start with `/` and contain no `,`. Each one is a raw path, or `/` followed by one |
| `AasaBuilder.BasePathChars` | src/index.ts:34-35 | Every character of a base path, other than `/`, comes from the `UL_PATHS` value in force |
| `AasaBuilder.BasePathsLiteral` | src/index.ts:34-35 | Base paths contain no wildcard when `UL_PATHS` has none |
| `AasaBuilder.DefaultPathsShape` | src/index.ts:34 | The default `"/callback"` has no `,` and no surrounding whitespace, and already starts with `/` |
| `AasaBuilder.DefaultRawPaths` | src/index.ts:34 | With `UL_PATHS` unset or empty, the only raw path is `"/callback"` |
| `AasaBuilder.DefaultBasePaths` | src/index.ts:34-35 | With `UL_PATHS` unset or empty, the only base path is `"/callback"` |
| `AasaBuilder.Expand` | src/index.ts:40-47 | A base path's block has 2 entries for `"/"` and 3 otherwise. It starts with the base path, every entry extends the base path, and every entry after the first ends in `*`. The second entry is `bp*`. The third repeats it exactly when `bp` ends in `/`, and is `bp` then `/*` otherwise |
| `AasaBuilder.ExpandExamples` | src/index.ts:40-47 | `"/"` gives `["/", "/*"]`, never `"//*"`. `"/callback"` gives `["/callback", "/callback*", "/callback/*"]`. `"/callback/"` gives `["/callback/", "/callback/*", "/callback/*"]`, keeping the duplicate |
| `AasaBuilder.ExpandCovers` | src/index.ts:37-47 | For a wildcard-free base path, the block matches exactly the URL paths that begin with the base path: the exact path plus the wildcard under it |
| `AasaBuilder.SlashStarRedundant` | src/index.ts:43-44 | For a wildcard-free base path, every URL path matched by the entry with `/*` is already matched by `${bp}*` |
| `AasaBuilder.ExpandCoversSibling` | src/index.ts:37-44 | The block for `/callback` also matches `/callbackfoo`, which is not under `/callback` |
| `AasaBuilder.ExpandAll` | src/index.ts:38-48 | `paths` has 2 entries per `"/"` base path and 3 per other base path |
| `AasaBuilder.ExpandAllAppend` | src/index.ts:38-48 | The expansion of a concatenation is the concatenation of the expansions, so `paths` is built block by block |
| `AasaBuilder.ExpandAllBlock` | src/index.ts:38-48 | The block of the k-th base path appears whole and unchanged, right after the blocks of the base paths before it |
| `AasaBuilder.BasePathsOfExpandAll` | src/index.ts:38-48 | The base paths can be read back from `paths`, so the expansion loses nothing |
| `AasaBuilder.ExpandAllCovers` | src/index.ts:37-48 | For wildcard-free base paths, `paths` matches exactly the URL paths that begin with some base path |
| `AasaBuilder.Build` | src/index.ts:29-66 | `applinks.apps` is `[]`. There is exactly one `details` entry, whose `appID` is the app identifier, and `webcredentials.apps` is `[appID]`. Its `paths` is the expansion of the base paths, one block per base path in base-path order. The base paths can be read back from `paths`, and `\|paths\|` is 2 when `"/"` is a base path plus 3 for each other base path |
| `AasaBuilder.DocumentBlock` | src/index.ts:38-48 | In the document's `paths`, for every k, the block of the k-th base path appears whole, right after the blocks of the base paths before it |
| `AasaBuilder.DefaultDocumentPaths` | src/index.ts:34-48 | With `UL_PATHS` unset or empty, `paths` is `["/callback", "/callback*", "/callback/*"]` |
| `AasaBuilder.DocumentCovers` | src/index.ts:37-48 | When `UL_PATHS` has no wildcard, the document routes to the app exactly the URL paths that begin with one of its base paths |
| `Router.IsAasaPath` | src/index.ts:100 | The two paths the file is served from both end in `/apple-app-site-association`, and neither is the health path, so no request to them, whatever the method, reaches the health branch |
| `Router.Dispatch` | src/index.ts:85-129 | `OPTIONS` takes the preflight branch on every path. `GET` on one of the two AASA paths takes the AASA branch. Any other method on `/api/health` takes the health branch. Everything else takes the default branch |
| `Router.Handle` | src/index.ts:81-130 | Status is always 200 or 204, never 404, and 204 exactly for `OPTIONS`. The body is empty exactly for `OPTIONS`. The document is served exactly for `GET` on an AASA path, with status 200. Health answers `healthy` and `enabled` with the current time. Every request that reaches the default branch gets 200 with the `OpenMesh API` description of the three endpoints |
| `Router.NonGetAasaIsServiceInfo` | src/index.ts:98-129 | A non-`GET`, non-`OPTIONS` request to an AASA path gets the default description with status 200 |
| `Router.AdvertisedEndpointsRouted` | src/index.ts:119-126 | Every endpoint the default body advertises is answered by its own branch for `GET` |
| `Router.AasaResponseDocument` | src/index.ts:98-107 | A `GET` of either AASA path answers 200. The document has `apps == []`, the configured `appID`, and `webcredentials.apps == [appID]` |
| `Router.DefaultAasaResponse` | src/index.ts:98-107 | With no bindings, `GET /.well-known/apple-app-site-association` serves the default app identifier and the `/callback` paths |

## Left out

- Building the `Response` object is left out. This covers the header maps (`Content-Type`, `Cache-Control: public, max-age=300`, the CORS headers and their values) and `JSON.stringify` (src/index.ts:68-78, 86-94, 103-106). These are runtime library calls. The model keeps only the status code and the body as a datatype.
- `new URL(request.url).pathname` is not modelled (src/index.ts:82-83). The pathname is an input string, and WHATWG URL parsing is left out.
- The clock read `new Date().toISOString()` (src/index.ts:113) becomes the parameter `now` of `Router.Handle`.
- The async `fetch` signature, `ExportedHandler` and the environment binding mechanism are hosting plumbing and are left out. The environment becomes the `Env` datatype.
- `Strings.IsWhitespace` lists the ECMAScript WhiteSpace and LineTerminator code points, with category Zs taken from the current Unicode version. A JavaScript engine built on an older Unicode table may classify a few space characters differently.
- Strings are sequences of Unicode scalar values. JavaScript strings are UTF-16 code units, so a lone surrogate cannot be represented. None of the modelled operations depends on this, because every whitespace character and the separator `,` lie in the Basic Multilingual Plane.
- `AasaBuilder.ExpandCovers`: the coverage statement is proved only for base paths without `*` or `?`. A wildcard inside a configured path makes the patterns match more, and the model does not describe how much more.
- `AasaBuilder.DocumentCovers`: this requires `UL_PATHS` to be free of wildcards, for the same reason. Apple's other matching features are not modelled. These are `NOT` exclusions, query and fragment components, and case-insensitive matching.
