# hick-init: name converters and web-frontend patches

`hick-init` scaffolds an actix-web Rust backend and, on request, wires a
Vite web frontend into it. Almost all of it is prompts, shell commands and
file writes. Two pieces of it are string logic, and this project models
them and proves properties about them:

- **The project-name converters** `snakeCaseToTitleCase` and
  `dashCaseToTitleCase` (`src/util.ts`). A name is split on `_` or `-`.
  Each fragment gets its first character upper-cased and the rest
  lower-cased, and the fragments are joined with nothing between them.
  Without the separator the two differ: the snake converter upper-cases
  only the first character, and the dash converter returns the name
  unchanged. The snake converter names the generated Rust error type
  `<Title>Error`.
- **The three rewrites `integrateWebFrontend` applies** to the generated
  backend (`src/projectInit/index.ts`):
  - `src/routes/mod.rs` gets a line `pub mod web;`.
  - `src/routes/config.rs` is cut at its last `;` and continued with
    `webServices()`, which closes the `configure_routes` function again.
  - `Cargo.toml` gets the line `actix-files = "0.6.2"`.

The model has four modules:

- `JsString` writes out the JavaScript string built-ins these pieces rely
  on: `split` never yields an empty array, `lastIndexOf` answers -1, and
  `substring` clamps a negative index to 0 and swaps reversed bounds.
  Case mapping is limited to ASCII letters.
- `Util` holds the converters. When the separator occurs, each is proved
  equal to an independent one-pass reading, `Scan`: a separator vanishes
  and starts a new word, the first letter of a word is upper-cased and later
  ones lower-cased. Without the separator neither converter is `Scan`: the
  snake converter upper-cases only the first character, and the dash
  converter returns the name unchanged.
- `Boilerplate` holds the `routeConfig()`, `webServices()` and
  `routeMod()` templates, line for line.
- `ProjectInit` holds the three rewrites as functions from the file text
  read to the text written back.

Everything here is pure: the source expresses these pieces as single
string expressions, with no loop and no mutable state.

Where the single-word rule is concerned, the model follows the code as
written. A name without `_` keeps the case of everything after its first
character; a fragment between separators is lower-cased after its first
character. `Util.SnakeCaseSingleWordBranches` states the difference.

## Model

| member | source | states |
|---|---|---|
| JsString.LastIndexOf | src/projectInit/index.ts:132 | -1 exactly when `;` is absent; otherwise the index holds `;` and no `;` follows it |
| JsString.LastIndexOfUnique | src/projectInit/index.ts:132 | any `;` with no `;` after it is the one `lastIndexOf` finds |
| JsString.Substring | src/projectInit/index.ts:133 | in-range bounds give the slice, in either order; a negative start counts as 0; two non-positive bounds give the empty string; an end past the string counts as its length; never longer than the input |
| JsString.CharAt | src/util.ts:4 | the one-character string at the index, or empty past the end |
| JsString.Slice | src/util.ts:4 | the suffix from the index, or empty past the end |
| JsString.Split | src/util.ts:3 | never returns an empty list of fragments |
| JsString.SplitFragments | src/util.ts:3 | one fragment more than separators; no fragment holds the separator |
| JsString.JoinSplit | src/util.ts:3 | joining the fragments back with the separator restores the string |
| JsString.JoinEmptyCons | src/util.ts:5 | joining with the empty separator concatenates the parts, the first one in front of the join of the rest |
| JsString.ToUpper | src/util.ts:4 | same length; every character upper-cased, each on its own |
| JsString.ToLower | src/util.ts:4 | same length; every character lower-cased, each on its own |
| JsString.SplitAtSeparator | src/projectInit/index.ts:121 | text joined at a separator splits into the fragments of each side, in order |
| JsString.CountAppend | src/projectInit/index.ts:132-133 | occurrences in a concatenation add up |
| Util.TitleWord | src/util.ts:4 | one character out per character in; the empty fragment contributes nothing |
| Util.TitleWords | src/util.ts:4 | one title-cased fragment per fragment, in the same position |
| Util.TitleCaseFragments | src/util.ts:3-5 | a name without the separator is a single fragment and comes out title-cased |
| Util.UpperFirst | src/util.ts:8 | same length; first character upper-cased, the rest unchanged |
| Util.SnakeCaseToTitleCase | src/util.ts:1-9 | with `_` present, no `_` remains; length is the input's minus its `_`s; the first character is one upper-casing leaves alone; without `_`, only the first character changes |
| Util.DashCaseToTitleCase | src/util.ts:11-19 | with `-` present, no `-` remains; without `-`, the name is returned unchanged; length is the input's minus its `-`s |
| Util.FragmentsMatchScan | src/util.ts:3-5 | the split / title-case / join pipeline equals the one-pass reading, at a word start and mid-word |
| Util.ScanShape | src/util.ts:3-5 | for a separator that is not a letter, the one-pass reading holds no separator, drops exactly the separators (length), and from a word start begins with a character upper-casing leaves alone |
| Util.SnakeCaseIsScan | src/util.ts:2-5 | with `_` present, the snake converter is the one-pass reading |
| Util.DashCaseIsScan | src/util.ts:12-15 | with `-` present, the dash converter is the one-pass reading |
| Util.ScanJoinedWords | src/util.ts:3-5 | separator-free words joined by the separator read as the words title-cased and concatenated in order |
| Util.SnakeCaseJoinedWords | src/util.ts:3-5 | `w1_w2_…_wn` converts to the title-cased words concatenated in order |
| Util.DashCaseJoinedWords | src/util.ts:13-15 | `w1-w2-…-wn` converts to the title-cased words concatenated in order |
| Util.ScanDoubledSeparator | src/util.ts:3-5 | a doubled separator reads like a single one |
| Util.SnakeCaseDoubledSeparator | src/util.ts:3-5 | the empty fragment of `__` contributes nothing |
| Util.SnakeCaseOuterSeparators | src/util.ts:3-5 | the empty fragments of a leading or trailing `_` contribute nothing |
| Util.SnakeCaseSingleWordBranches | src/util.ts:2-8 | a word alone keeps its case after the first character; behind a `_` it is lower-cased |
| Util.SnakeCaseIdempotent | src/util.ts:1-9 | converting the converted name changes nothing |
| Util.DashCaseIdempotent | src/util.ts:11-19 | converting the converted name changes nothing |
| Util.ConvertersDisagreeWithoutSeparator | src/util.ts:8-18 | with neither separator, dash is the identity while snake keeps the name exactly when it does not start with a lower-case letter |
| Util.ScanConcat | src/util.ts:3-5 | the one-pass reading of a concatenation reads the parts in turn |
| Util.ScanWord | src/util.ts:4 | a separator-free word read in one pass is that word title-cased |
| Boilerplate.ErrorTypeName | src/projectInit/boilerplate.ts:176-179 | `<Title>Error` ends in `Error`, is five longer than the name without its `_`s, and has no `_` before `Error` when the name had one |
| Boilerplate.RouteConfig | src/projectInit/boilerplate.ts:153-167 | `routeConfig()` is its head, one `;`, and a tail without `;`, so that `;` is its last |
| Boilerplate.RouteConfigHeadEnd | src/projectInit/boilerplate.ts:161-163 | the head ends with the `echo` route and the `)` closing `cfg.service(` |
| Boilerplate.WebServicesHeadWithoutSemicolon | src/projectInit/boilerplate.ts:193-204 | the registrations before the final `;` of `webServices()` hold no `;` |
| Boilerplate.OneSemicolon | src/projectInit/boilerplate.ts:204 | a `;` between two `;`-free texts is the only and the last `;` |
| Boilerplate.WebServicesSemicolon | src/projectInit/boilerplate.ts:193-207 | `webServices()` (the template `Boilerplate.WebServices`) holds exactly one `;`, right after its head, so that `;` is also its last |
| ProjectInit.PatchRoutesModule | src/projectInit/index.ts:121 | the old text is an exact prefix; the result ends in `\npub mod web;`; it is 13 characters longer |
| ProjectInit.RoutesModuleLines | src/projectInit/index.ts:121 | as lines, the result is the old lines plus one line `pub mod web;` |
| ProjectInit.RoutesModuleInjective | src/projectInit/index.ts:121 | different old texts give different results |
| Boilerplate.RouteMod | src/projectInit/boilerplate.ts:169-174 | the generated `mod.rs` reads as lines `pub mod example;`, `pub mod config;`, a blank line and an indented empty line |
| ProjectInit.RouteModPatch | src/projectInit/index.ts:121 | the patched generated `mod.rs` declares `example`, `config` and then `web` |
| ProjectInit.PatchCargoManifest | src/projectInit/index.ts:144 | the old text is an exact prefix and exactly `\nactix-files = "0.6.2"` is appended |
| ProjectInit.CargoManifestLines | src/projectInit/index.ts:144 | as lines, the result is the old lines plus `actix-files = "0.6.2"` |
| ProjectInit.CargoManifestInjective | src/projectInit/index.ts:144 | different old texts give different results |
| ProjectInit.ReplaceLastStatement | src/projectInit/index.ts:132-133 | the result ends with the inserted text, what precedes it is a prefix of the old text, and with no `;` the result is the inserted text alone |
| ProjectInit.ReplaceAtLastSemicolon | src/projectInit/index.ts:132-133 | for `i` a `;` with none after it, the result is `data[..i]` then the inserted text |
| ProjectInit.ReplaceSemicolons | src/projectInit/index.ts:132-133 | with a `;` present, the result has the old count of `;` minus one plus the inserted text's |
| ProjectInit.ReplaceStatement | src/projectInit/index.ts:132-133 | text `head ; tail` with a `;`-free tail keeps exactly `head` |
| ProjectInit.ReplaceAfterStatement | src/projectInit/index.ts:132-133 | text ending in `head ; tail` is cut at that `;` |
| ProjectInit.ReplaceLastStatementExample | src/projectInit/index.ts:132-133 | `cfg.service(a);` becomes `cfg.service(a)` followed by the inserted statement |
| ProjectInit.SpliceRouteConfig | src/projectInit/index.ts:132-133 | the result ends with `webServices()` after a prefix of the old text; with no `;` it is `webServices()` alone |
| ProjectInit.SpliceRouteConfigAtLastSemicolon | src/projectInit/index.ts:132-133 | with its last `;` at `i`, the file becomes `data[..i]` then `webServices()` |
| ProjectInit.SpliceRouteConfigSemicolons | src/projectInit/index.ts:132-133 | with a `;` present, the count of `;` is the old count minus one plus the one of `webServices()`, so it is unchanged |
| ProjectInit.SpliceRouteConfigWithoutSemicolon | src/projectInit/index.ts:132-133 | every `;`-free file is rewritten to the same text, `webServices()`; the old text is lost |
| ProjectInit.SpliceRouteConfigDropsEmptyFunction | src/projectInit/index.ts:132-133 | `fn f() {}` is replaced by `webServices()` alone |
| ProjectInit.RouteConfigSplice | src/projectInit/index.ts:132-133 | the generated `config.rs` keeps its text up to the `)` after the `echo` route and then reads `webServices()` |
| ProjectInit.SpliceRouteConfigTwice | src/projectInit/index.ts:132-133 | a second rewrite cuts at the `;` of the first `webServices()` and appends another, so the web and assets scopes are registered twice |
| ProjectInit.CheckedSpliceRouteConfig | src/projectInit/index.ts:132-133 | reports a missing `;` exactly when there is none; otherwise the faithful result, whose kept text extended by `;` is a prefix of the old file |
| ProjectInit.RouteConfigCheckedSplice | src/projectInit/index.ts:132-133 | on the generated `config.rs` the checked rewrite succeeds with the faithful text |

## Left out

- The file reads and writes around the rewrites, their error-logging callbacks and their ordering (`src/projectInit/index.ts:111-150`). They are fire-and-forget asynchronous I/O. A failed read leaves the file as it was, and the model has no file system in which to say so.
- `createNewProject`, `generateBoilerplate` and `createViteApp`. They run `cargo new` and `npm create vite` as external processes, change the working directory and write files.
- The interactive prompts and menu in `src/index.ts` and `src/ctx.ts` (user interface), and all of `src/backendInit/index.ts` (I/O only). The `./boilerplate` module that `src/backendInit/index.ts` imports is not part of this model.
- The other templates (`cargoConfig`, `mainFile`, `errorHandling`, `defaultStructs`, `exampleRoute`, `webRoutes`). Modelling them would only restate literal text. Their one computed part, the `<Title>Error` name, is `Boilerplate.ErrorTypeName`.
- Util.SnakeCaseToTitleCase: upper- and lower-casing cover ASCII letters only, and every other character passes through. JavaScript maps all of Unicode, where a character can change length (`ß` upper-cases to `SS`), so the length clause holds for ASCII names only.
- Util.DashCaseToTitleCase: the same ASCII-only casing as the snake converter.
- Util.TitleWord: the same ASCII-only casing. Strings are sequences of characters, not UTF-16 code units, so `charAt(0)` of a name starting with a surrogate pair is not modelled.
- JsString.ToUpper: maps the ASCII letters `a`-`z` only. JavaScript's `toUpperCase` maps all of Unicode and can change the length of a string.
- JsString.ToLower: maps the ASCII letters `A`-`Z` only, for the same reason.
- JsString.Slice: only the non-negative start the source uses (`slice(1)`). Negative starts, which count from the end, are not modelled.
- JsString.Split: only one-character separators, the only kind the source passes.
- There is no search for the n-th occurrence of a character in the source. The splice uses `lastIndexOf` alone, so no such search is modelled.

## Findings

| source | as written | input that shows it | evidently intended | confidence | as-written member | corrected member |
|---|---|---|---|---|---|---|
| src/projectInit/index.ts:132-133 | `data.substring(0, data.lastIndexOf(';')) + webServices()`: with no `;`, `lastIndexOf` gives -1, `substring` clamps it to 0, and the whole old file is dropped | a `config.rs` with no `;`, such as `fn f() {}`, is rewritten to `webServices()` alone | report the missing anchor and leave the file as it was | low (the generated file always has a `;`; only a hand-edited one lacks it), not executed | ProjectInit.SpliceRouteConfigWithoutSemicolon | ProjectInit.CheckedSpliceRouteConfig |
