# Help-center validator and generator, modelled in Dafny

The help center is built from a YAML table of contents (TOC). The TOC lists modules,
and each module lists article references (`id`, `title`, `file`, `order`). Each
referenced Markdown file carries front-matter metadata and a body. Two scripts read
the same TOC and files:

- `scripts/validate-help-center.js` walks every module and every article in order
  and never stops early. It keeps one set of module ids and one of article ids for
  the whole run, and prints an error or warning line for each problem. Problems
  include missing fields, duplicate ids, missing or unreadable files, front-matter
  that disagrees with the TOC, and empty bodies. The run ends "failed", "passed with
  warnings" or "passed".
- `scripts/generate-help-center.js` turns each TOC module into an output module with
  defaults. Each article whose file exists becomes a resolved article: front-matter
  values win over the TOC's, and `order` wins by presence rather than truthiness.
  Articles whose file is missing are skipped. The run counts what it wrote.

The project has these files:

- `values.dfy` (`JsValues`): the scalar JavaScript values the scripts compare,
  JavaScript truthiness, and `String.prototype.trim` over JavaScript's white-space
  set.
- `outline.dfy` (`Outline`): the decoded TOC and the decoded article documents. The
  file system and the front-matter decoder are one map from an article's `file`
  string to `NotFound`, `Unreadable(message)` or `Loaded(document)`.
- `validator.dfy` (`Validator`): the validator twice over.
  - A specification: right folds over a scan state of issue lines, the two id sets
    and an abort flag.
  - `ValidateHelpCenter`, the script's nested loops with `continue`. It keeps the
    `hasErrors` and `hasWarnings` flags and the two `Set`s as locals, and is proved
    to return exactly what the specification does.
- `validator_facts.dfy` (`ValidatorFacts`): what the specification guarantees:
  - severity channels;
  - the id sets' contents;
  - duplicate reporting, exactly and across modules;
  - what a bad file or a module without an article list contributes;
  - a run reports nothing exactly when the outline is well formed.
- `generator.dfy` (`Generator`): the resolution record and module defaults as
  functions, the traversal as a specification. `GenerateArticles` and
  `GenerateHelpCenter` are the two loops, pushing onto the output lists and counting,
  and are proved against that specification.
- `generator_facts.dfy` (`GeneratorFacts`): the generator's guarantees:
  - the output shape;
  - that skipping keeps order;
  - when a run fails, and which article decides the failure;
  - the article count.
- `agreement.dfy` (`Agreement`): both scripts on the same input.
  - An outline the validator finishes without errors generates with no article
    dropped.
  - A drift warning is printed exactly when the generated id or module id departs
    from the TOC.
  - A well-formed outline generates articles under their TOC ids.

Resolution is a Dafny function of the TOC article, the module id and the document, so
it is deterministic by construction.

## Model

| member | source | states |
|---|---|---|
| JsValues.TrimStartFacts | scripts/validate-help-center.js:139 | trimming the front keeps a suffix of the body that does not start with white space, and everything dropped was white space |
| JsValues.TrimEndFacts | scripts/validate-help-center.js:139 | trimming the back keeps a prefix of the body that does not end with white space, and everything dropped was white space |
| JsValues.TrimFacts | scripts/validate-help-center.js:139 | the trimmed body is empty exactly when every character is white space; otherwise it neither starts nor ends with white space; it is no longer than the body and made of its characters |
| Validator.VerdictOf | scripts/validate-help-center.js:159-168 | failed exactly when some error line was printed, whatever the warnings; passed with warnings exactly when there is no error but a warning; passed exactly when nothing was printed |
| Validator.Validate | scripts/validate-help-center.js:44-47 | the missing-modules abort happens exactly when the TOC has no `modules` list, and before any line is printed; a finished run's verdict is the verdict of its lines |
| Validator.AppendIssue | scripts/validate-help-center.js:31-32 | after one more line, `hasErrors` (`hasWarnings`) holds exactly when it held before or the line is an error (a warning) |
| Validator.ValidateModuleFields | scripts/validate-help-center.js:60-83 | the module field checks print the id, title, description and icon lines of the specification and add the id to `moduleIds` only when it is truthy and new, keeping both flags equal to "some error/warning was printed" |
| Validator.ValidateArticleFields | scripts/validate-help-center.js:94-107 | the article id and title checks print the specification's lines and record the id only when truthy and new; the flags stay in step |
| Validator.ValidateArticleFile | scripts/validate-help-center.js:109-148 | the run aborts exactly when `file` is truthy but not a string; otherwise exactly the file's lines are printed (missing, not found, unreadable, or the document checks) |
| Validator.ValidateDocument | scripts/validate-help-center.js:129-142 | a loaded document adds exactly its front-matter and content lines, flags in step |
| Validator.ValidateArticles | scripts/validate-help-center.js:92-149 | the article loop yields the lines, article ids and abort flag of the specification's fold over the module's articles |
| Validator.ValidateModule | scripts/validate-help-center.js:56-150 | one pass of the module loop, including the `continue` of a module without an article list, yields the lines, id sets and abort flag of the specification's step for that module, flags in step |
| Validator.ValidateModules | scripts/validate-help-center.js:50-150 | the module loop, from empty locals, leaves exactly the lines, id sets and abort flag of the specification's fold over the module list, with `hasErrors` and `hasWarnings` equal to "some error/warning was printed" |
| Validator.ValidateHelpCenter | scripts/validate-help-center.js:31-168 | the script's whole run returns exactly the specification's outcome: the missing-modules abort, or the same lines in order, the same two id sets and the verdict computed from the two flags |
| ValidatorFacts.CheckArticleAppends | scripts/validate-help-center.js:92-149 | one article only appends lines, all article-level and on their kind's channel, and never touches the module ids |
| ValidatorFacts.CheckModuleFieldsAppends | scripts/validate-help-center.js:60-83 | a module's own field checks only append lines, each on the channel its kind calls for |
| ValidatorFacts.ScanArticlesAppends | scripts/validate-help-center.js:92-149 | the article loop only appends article-level lines on their kind's channel; once aborted nothing changes |
| ValidatorFacts.CheckModuleAppends | scripts/validate-help-center.js:56-149 | one module only appends lines, each on its kind's channel |
| ValidatorFacts.ScanModulesAppends | scripts/validate-help-center.js:56-150 | the module loop never removes or reorders printed lines and keeps every line on its kind's channel |
| ValidatorFacts.SeverityFollowsKind | scripts/validate-help-center.js:75-83 | every printed line goes to the channel its kind calls for; a missing description or icon is only ever a warning |
| ValidatorFacts.DocumentIssuesAreArticleLevel | scripts/validate-help-center.js:129-142 | a document's lines are article-level, on their kind's channel, and never a duplicate-id line |
| ValidatorFacts.FileIssuesAreArticleLevel | scripts/validate-help-center.js:109-148 | the lines of an article's file checks are article-level, on their kind's channel, and never a duplicate-id line |
| ValidatorFacts.ScanArticlesRecordsIds | scripts/validate-help-center.js:94-102 | an article loop that does not abort adds exactly the distinct truthy article ids it met to `articleIds` |
| ValidatorFacts.CheckModuleRecordsIds | scripts/validate-help-center.js:60-102 | one module that does not abort adds its id to `moduleIds` only when truthy and new, and adds exactly its articles' distinct truthy ids to `articleIds` |
| ValidatorFacts.ScanModulesRecordsIds | scripts/validate-help-center.js:60-68 | a module loop that does not abort adds exactly the distinct truthy module ids to `moduleIds`, and the distinct truthy article ids of all modules to `articleIds` |
| ValidatorFacts.IdSetsHoldDistinctTruthyIds | scripts/validate-help-center.js:156-157 | the summary counts come from sets holding exactly the distinct truthy module ids and the distinct truthy article ids across all modules |
| ValidatorFacts.CheckArticleReportsDuplicate | scripts/validate-help-center.js:97-99 | one article adds a duplicate-article-id error for `v` exactly when its id is `v`, truthy and already recorded |
| ValidatorFacts.ScanArticlesReportsDuplicates | scripts/validate-help-center.js:97-99 | after the article loop, a duplicate-article-id error for `v` is in the report exactly when it was before, or `v` is a truthy id met again: seen before the loop or earlier in it |
| ValidatorFacts.CheckModuleReportsDuplicateModule | scripts/validate-help-center.js:63-65 | after one module, a duplicate-module-id error for `v` is in the report exactly when it was before, or the module's id is `v`, truthy and already in `moduleIds`; the set gains the id only when it is truthy and new |
| ValidatorFacts.ScanModulesReportsDuplicateModules | scripts/validate-help-center.js:56-68 | after the module loop, a duplicate-module-id error for `v` is in the report exactly when it was before, or `v` is a truthy module id met again |
| ValidatorFacts.CheckModuleReportsDuplicateArticles | scripts/validate-help-center.js:92-102 | after one module, a duplicate-article-id error for `v` is in the report exactly when it was before, or one of its articles repeats `v` against ids of earlier modules or earlier in the module; the set gains the module's distinct truthy article ids |
| ValidatorFacts.ScanModulesReportsDuplicateArticles | scripts/validate-help-center.js:94-102 | article ids are checked across all modules: after the module loop, a duplicate-article-id error for `v` is in the report exactly when it was before, or the truthy `v` is met again anywhere in the article lists |
| ValidatorFacts.DuplicatesReportedExactly | scripts/validate-help-center.js:52-102 | a finished run has a duplicate-module-id (duplicate-article-id) error for `v` exactly when the truthy `v` occurs twice among the module ids (among all article ids of the outline) |
| ValidatorFacts.ModuleWithoutArticleList | scripts/validate-help-center.js:86-90 | a module without an article list gets exactly one no-articles warning after its field checks, no article-level line, no new article id, and the loop goes on with the next module |
| ValidatorFacts.FileProblemEndsArticle | scripts/validate-help-center.js:109-148 | a missing `file`, a file not found and an unreadable file each add exactly one error (missing, not found or parse error) after the id and title lines, and no front-matter or content line |
| ValidatorFacts.DocumentIssuesMembers | scripts/validate-help-center.js:129-142 | a document line is exactly one of: the id drift warning when the front-matter `id` is truthy and differs, the moduleId drift warning likewise, or the no-content error when the body trims to nothing |
| ValidatorFacts.DocumentChecksExactly | scripts/validate-help-center.js:129-142 | an id or moduleId drift warning exactly when the front-matter value is truthy and differs from the TOC article id or the parent module id; a no-content error exactly when the body is white space only; only that line is an error |
| ValidatorFacts.ScanArticlesReportsFiles | scripts/validate-help-center.js:92-149 | in an article loop that does not abort, every article's file lines reach the report, whatever its id and title |
| ValidatorFacts.CheckModuleReportsFiles | scripts/validate-help-center.js:86-149 | in one module that does not abort, every article's file checks run and all their lines reach the report |
| ValidatorFacts.ScanModulesReportsFiles | scripts/validate-help-center.js:56-150 | in a run that does not abort, every file line of every article of every module reaches the report |
| ValidatorFacts.MissingFileReported | scripts/validate-help-center.js:115-121 | in a run that finishes, a referenced file that does not exist is reported as an error naming it; a run aborted by an earlier non-string `file` never reaches the article |
| ValidatorFacts.ErrorFreeRunLoadsEveryFile | scripts/validate-help-center.js:109-168 | a finished run that did not fail has a string `file` naming a loadable document for every article it visited |
| ValidatorFacts.CheckArticleReportsFields | scripts/validate-help-center.js:94-107 | one article that does not abort prints the missing-id error when its `id` is falsy and the missing-title error, naming the id, when its `title` is falsy |
| ValidatorFacts.ScanArticlesReportsFields | scripts/validate-help-center.js:92-107 | in an article loop that does not abort, every article's missing-id and missing-title errors reach the report |
| ValidatorFacts.CheckModuleReportsFields | scripts/validate-help-center.js:60-107 | one module that does not abort prints the missing-id and missing-title errors of its own fields and of each of its articles |
| ValidatorFacts.ScanModulesReportsFields | scripts/validate-help-center.js:56-107 | in a module loop that does not abort, every module's and every article's missing-id and missing-title errors reach the report |
| ValidatorFacts.MissingIdsAndTitlesReported | scripts/validate-help-center.js:60-107 | in a run that finishes, every module and every article with a falsy `id` or `title` has its missing-id or missing-title error in the report |
| ValidatorFacts.ErrorFreeRunHasIdsAndTitles | scripts/validate-help-center.js:60-168 | a finished run whose verdict is not "failed" met only modules and articles with a truthy `id` and a truthy `title` |
| ValidatorFacts.CheckArticleClean | scripts/validate-help-center.js:94-148 | one article prints nothing exactly when it is sound (id, title, loadable file, agreeing front-matter, non-blank body) and its id is new |
| ValidatorFacts.ScanArticlesClean | scripts/validate-help-center.js:92-149 | an article loop prints nothing exactly when every article is sound and no article id is met again |
| ValidatorFacts.CheckModuleClean | scripts/validate-help-center.js:60-149 | one module prints nothing exactly when it is sound and neither its id nor any article id is met again |
| ValidatorFacts.ScanModulesClean | scripts/validate-help-center.js:56-150 | the module loop prints nothing exactly when every module is sound and no module id or article id is met again |
| ValidatorFacts.CleanRunIffWellFormed | scripts/validate-help-center.js:56-168 | a run ends "passed" exactly when the outline is well formed: a module list of sound modules, pairwise distinct module ids, and pairwise distinct article ids across the outline |
| Generator.Resolve | scripts/generate-help-center.js:71-77 | front-matter `id`, `title` and `moduleId` win when truthy, else the TOC article's id and title and the owning module's id; front-matter `order` wins whenever present (including `0`), else the TOC `order` when truthy, else `0`; the content is the trimmed body |
| Generator.ModuleShell | scripts/generate-help-center.js:48-55 | `id` and `title` copied; a falsy description becomes `''`, a falsy icon `'file'` and a falsy order `0`; the icon is never falsy; articles start empty |
| Generator.VersionOf | scripts/generate-help-center.js:90 | the TOC version when truthy, else `'1.0.0'`; never falsy |
| Generator.ResolveArticles | scripts/generate-help-center.js:58-82 | an article loop can only fail through a bad `file`, never with the missing-modules failure |
| Generator.ProcessModule | scripts/generate-help-center.js:48-85 | one module can only fail through a bad article `file` |
| Generator.ProcessModules | scripts/generate-help-center.js:45-86 | a successful module loop yields exactly one output module per TOC module; a failure is never the missing-modules one |
| Generator.Generate | scripts/generate-help-center.js:35-93 | the run fails with "missing modules" exactly when the TOC has no module list; a successful run has one output module per TOC module and a truthy version |
| Generator.GenerateArticles | scripts/generate-help-center.js:58-82 | the article loop returns the specification's articles, or its first failure, and adds their number to the running count |
| Generator.GenerateHelpCenter | scripts/generate-help-center.js:35-100 | the script's run returns exactly the specification's outcome, and the printed article count equals the number of articles across the output modules |
| GeneratorFacts.Loadable | scripts/generate-help-center.js:58-64 | an article survives exactly when its `file` is a string naming a loadable file; no more articles than the TOC lists |
| GeneratorFacts.LoadableAppend | scripts/generate-help-center.js:58-64 | skipping keeps the TOC order: the survivors of two lists in a row are those of the first followed by those of the second |
| GeneratorFacts.LoadableKeepsAll | scripts/generate-help-center.js:58-64 | nothing is skipped, and the count equals the TOC's, exactly when every file loads |
| GeneratorFacts.ResolveArticlesSucceedsIff | scripts/generate-help-center.js:58-68 | an article loop finishes exactly when every `file` is a string that names no file or a readable one |
| GeneratorFacts.FirstFailureDecides | scripts/generate-help-center.js:58-68 | a failing article loop fails with the cause of its first failing article; every earlier article was harmless |
| GeneratorFacts.ResolveEach | scripts/generate-help-center.js:71-77 | resolving a list of loadable articles gives, position by position, each article resolved against its own document |
| GeneratorFacts.ResolveArticlesResolvesLoadable | scripts/generate-help-center.js:58-82 | a finished article loop writes exactly the TOC articles whose files load, in TOC order, each resolved against its own document |
| GeneratorFacts.ProcessModulesSucceedsIff | scripts/generate-help-center.js:45-86 | the module loop finishes exactly when every article `file` of every module with an article list is harmless |
| GeneratorFacts.ProcessModulesKeepsModules | scripts/generate-help-center.js:45-86 | one output module per TOC module, in TOC order, also for modules without an article list: the module's defaults holding its own loop's articles |
| GeneratorFacts.TotalCountsLoadable | scripts/generate-help-center.js:79-80 | the article count is the number of TOC articles, across all modules, whose files load |
| GeneratorFacts.GenerateSucceedsIff | scripts/generate-help-center.js:35-86 | a run produces output exactly when the TOC has a module list and every article `file` is harmless |
| GeneratorFacts.GeneratedOutput | scripts/generate-help-center.js:45-100 | the output has a truthy version (the TOC's when truthy); one module per TOC module with its defaults; per module, no more articles than the TOC lists; an article count equal to the surviving articles, equal to the TOC's exactly when every file loads |
| Agreement.DriftWarningIffResolvedDiffers | scripts/generate-help-center.js:72-74 | the validator prints an id (moduleId) drift warning exactly when the generator publishes the article under an id (module id) other than the TOC's |
| Agreement.ValidatedOutlineGenerates | scripts/generate-help-center.js:57-80 | an outline the validator finishes without an error generates without failing, keeps every article of every module, and counts all of them |
| Agreement.SoundArticleResolvesFaithfully | scripts/generate-help-center.js:71-77 | a sound TOC article is published under its TOC id and its own module's id, with a title and a non-empty body |
| Agreement.WellFormedOutlineGeneratesFaithfully | scripts/generate-help-center.js:45-86 | a well-formed outline generates every article in TOC order, under its TOC id and its module's id, with a title and a non-empty body |

## Left out

- Reading the TOC file and decoding YAML (`fs.existsSync`, `readFileSync`, `yaml.load`): the decoded TOC is an input. A missing TOC file is not modelled.
- Field values are scalars only: undefined, null, booleans, integers and strings. Arrays or mappings as field values, fractional numbers, `NaN` and YAML dates are not modelled. Without `NaN`, the scripts' `!==` and `Set` membership are Dafny equality.
- `Num(n)` stands for an integer that a JavaScript number holds exactly, that is |n| ≤ 2^53. Above that bound, distinct integers such as 9007199254740992 and 9007199254740993 decode to the same double, so the scripts' `Set.has` and `!==` would treat them as equal while the model keeps them apart.
- A truthy `modules` value that is not an array is not modelled: the TOC either has a module list or has none.
- Entries of `modules` or `articles` that are null or scalars are not modelled: every entry is a mapping, and a missing key reads as undefined.
- The file system and `gray-matter` are one map from the `file` string to a load result. `path.join` normalisation is not modelled, so two spellings of the same path are separate keys. A `file` naming a directory, including `""` in the generator, is expected to map to `Unreadable`, as `readFileSync` throws on it.
- Console text, emoji, the "UNNAMED" label and the per-article success lines: an issue keeps only its severity, kind and the value its message names.
- `process.exit` codes: the verdict and the fatal causes stand for them.
- The validator's outer `catch`: the only exception modelled is `path.join` on a truthy non-string `file`. It aborts the run and keeps the lines printed so far.
- The generator's `generated` timestamp, the `JSON.stringify` encoding (including undefined fields being dropped) and the output file write.
- The `async` wrappers and log lines of both scripts.
- Characters are Unicode scalar values. Every character `trim` removes lies in the Basic Multilingual Plane, so trimming agrees with JavaScript's UTF-16 strings.
