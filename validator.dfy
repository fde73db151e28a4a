/** The validator (`scripts/validate-help-center.js`): one pass over the modules and
    their articles that never stops at the first problem. It records each problem as an
    Issue (a console line), tracks module ids and article ids in two sets that live
    for one run, and ends as failed, passed with warnings, or passed.

    The specification is a fold over a `Scan` state, module after module and article
    after article; `ValidateHelpCenter` is the loop the script runs, proved to produce
    exactly what the fold describes. */
module Validator {
  import opened JsValues
  import opened Outline

  datatype Severity = Error | Warning

  /** What an issue is about; the console message is left out. */
  datatype Kind =
    | ModuleMissingId | DuplicateModuleId | ModuleMissingTitle
    | ModuleMissingDescription | ModuleMissingIcon | ModuleHasNoArticles
    | ArticleMissingId | DuplicateArticleId | ArticleMissingTitle | ArticleMissingFile
    | ArticleFileNotFound | ArticleParseError(message: string)
    | FrontMatterIdDiffers(declared: Value) | FrontMatterModuleIdDiffers(declared: Value)
    | ArticleNoContent

  /** One `console.error` (an Error) or `console.warn` (a Warning) line: its kind and
      the value the message names (`Undefined` when it names none). */
  datatype Issue = Issue(severity: Severity, kind: Kind, scope: Value)

  /** Which of the two console channels each kind of line goes to. */
  function SeverityOf(k: Kind): Severity {
    match k
    case ModuleMissingDescription => Warning
    case ModuleMissingIcon => Warning
    case ModuleHasNoArticles => Warning
    case FrontMatterIdDiffers(_) => Warning
    case FrontMatterModuleIdDiffers(_) => Warning
    case _ => Error
  }

  predicate HasError(issues: seq<Issue>) {
    exists x :: x in issues && x.severity == Error
  }

  predicate HasWarning(issues: seq<Issue>) {
    exists x :: x in issues && x.severity == Warning
  }

  datatype Verdict = Failed | PassedWithWarnings | Passed

  /** The three ends of a run. Failed whenever an error was reported, whatever the
      warnings; passed with warnings when only warnings were; passed when nothing was. */
  function VerdictOf(issues: seq<Issue>): (v: Verdict)
    ensures v == Failed <==> HasError(issues)
    ensures v == PassedWithWarnings <==> !HasError(issues) && HasWarning(issues)
    ensures v == Passed <==> issues == []
  {
    assert issues != [] ==> issues[0] in issues;
    if HasError(issues) then Failed
    else if HasWarning(issues) then PassedWithWarnings
    else Passed
  }

  /** Why a run exits early through `process.exit(1)`: no `modules` list, or an article
      whose `file` is truthy but not a string, on which `path.join` throws outside the
      per-article `try`. */
  datatype Fatal = MissingModules | ArticlePathNotString

  /** What a run reports: the issue lines, in order; for a finished run also the two
      id sets (whose sizes the summary prints) and the verdict. */
  datatype Validation =
    | Aborted(cause: Fatal, issues: seq<Issue>)
    | Completed(issues: seq<Issue>, moduleIds: set<Value>, articleIds: set<Value>, verdict: Verdict)

  /** The state the script's loops carry: the lines printed so far, the two id sets,
      and whether the run has been aborted. */
  datatype Scan = Scan(issues: seq<Issue>, moduleIds: set<Value>, articleIds: set<Value>, halted: bool)

  const Start: Scan := Scan([], {}, {}, false)

  /** The id checks shared by modules and articles: a falsy id is missing, a truthy id
      already in the set is a duplicate. */
  function IdIssues(id: Value, seen: set<Value>, missing: Kind, duplicate: Kind): seq<Issue> {
    if !Truthy(id) then [Issue(Error, missing, Undefined)]
    else if id in seen then [Issue(Error, duplicate, id)]
    else []
  }

  /** The id set after the id checks: only a truthy id not yet seen is added. */
  function Record(id: Value, seen: set<Value>): set<Value> {
    if Truthy(id) && id !in seen then seen + {id} else seen
  }

  /** The checks that need a loaded document: front-matter `id` and `moduleId` that are
      truthy and differ from the TOC's give warnings; an empty or white-space body is
      an error. */
  function DocumentIssues(a: ArticleRef, moduleId: Value, doc: Document): seq<Issue> {
    IdDrift(a, doc) + ModuleDrift(moduleId, doc) + ContentCheck(a, doc)
  }

  /** A front-matter `id` that is truthy and differs from the TOC article id. */
  function IdDrift(a: ArticleRef, doc: Document): seq<Issue> {
    var declared := Field(doc.data, "id");
    if Truthy(declared) && declared != a.id then [Issue(Warning, FrontMatterIdDiffers(declared), a.id)] else []
  }

  /** A front-matter `moduleId` that is truthy and differs from the parent module id. */
  function ModuleDrift(moduleId: Value, doc: Document): seq<Issue> {
    var declared := Field(doc.data, "moduleId");
    if Truthy(declared) && declared != moduleId then [Issue(Warning, FrontMatterModuleIdDiffers(declared), moduleId)] else []
  }

  /** A body that is empty once trimmed. */
  function ContentCheck(a: ArticleRef, doc: Document): seq<Issue> {
    if Trim(doc.content) == "" then [Issue(Error, ArticleNoContent, a.id)] else []
  }

  datatype FileOutcome = Checked(issues: seq<Issue>) | PathThrows

  /** Everything from the `file` check on: a falsy `file`, a file that does not exist,
      and a file that cannot be read or decoded each give one error and end the
      article's checks; a non-string `file` aborts the run. */
  function FileIssues(a: ArticleRef, moduleId: Value, files: Files): FileOutcome {
    if !Truthy(a.file) then Checked([Issue(Error, ArticleMissingFile, a.id)])
    else if !a.file.Str? then PathThrows
    else match Load(files, a.file.s)
      case NotFound => Checked([Issue(Error, ArticleFileNotFound, a.file)])
      case Unreadable(message) => Checked([Issue(Error, ArticleParseError(message), a.file)])
      case Loaded(doc) => Checked(DocumentIssues(a, moduleId, doc))
  }

  /** One pass of the article loop. A missing id or title is reported and checking
      goes on; only the file checks can end the article early. */
  function CheckArticle(s: Scan, a: ArticleRef, moduleId: Value, files: Files): Scan {
    var titleIssues := if !Truthy(a.title) then [Issue(Error, ArticleMissingTitle, a.id)] else [];
    var s1 := s.(issues := s.issues + IdIssues(a.id, s.articleIds, ArticleMissingId, DuplicateArticleId) + titleIssues,
                 articleIds := Record(a.id, s.articleIds));
    match FileIssues(a, moduleId, files)
    case PathThrows => s1.(halted := true)
    case Checked(found) => s1.(issues := s1.issues + found)
  }

  function ScanArticles(s: Scan, refs: seq<ArticleRef>, moduleId: Value, files: Files): Scan
    decreases |refs|
  {
    if refs == [] || s.halted then s
    else ScanArticles(CheckArticle(s, refs[0], moduleId, files), refs[1..], moduleId, files)
  }

  /** The module's own checks: id (missing or duplicate), title, then the warnings for
      a missing description and a missing icon. */
  function CheckModuleFields(s: Scan, m: Module): Scan {
    s.(issues := s.issues + ModuleFieldIssues(m, s.moduleIds), moduleIds := Record(m.id, s.moduleIds))
  }

  /** The lines of a module's own field checks, given the module ids met so far. */
  function ModuleFieldIssues(m: Module, moduleIds: set<Value>): seq<Issue> {
    IdIssues(m.id, moduleIds, ModuleMissingId, DuplicateModuleId) +
    (if !Truthy(m.title) then [Issue(Error, ModuleMissingTitle, m.id)] else []) +
    (if !Truthy(m.description) then [Issue(Warning, ModuleMissingDescription, m.id)] else []) +
    (if !Truthy(m.icon) then [Issue(Warning, ModuleMissingIcon, m.id)] else [])
  }

  /** One pass of the module loop: a module without an article list gets one warning
      and the loop moves on to the next module. */
  function CheckModule(s: Scan, m: Module, files: Files): Scan {
    var h := CheckModuleFields(s, m);
    match m.articles
    case NotAList => h.(issues := h.issues + [Issue(Warning, ModuleHasNoArticles, m.id)])
    case Listed(refs) => ScanArticles(h, refs, m.id, files)
  }

  function ScanModules(s: Scan, ms: seq<Module>, files: Files): Scan
    decreases |ms|
  {
    if ms == [] || s.halted then s
    else ScanModules(CheckModule(s, ms[0], files), ms[1..], files)
  }

  /** The module fold from position `i` is the step at `i`, then the fold from `i + 1`. */
  lemma ScanModulesStep(s: Scan, ms: seq<Module>, i: nat, files: Files)
    requires i < |ms| && !s.halted
    ensures ScanModules(s, ms[i..], files) == ScanModules(CheckModule(s, ms[i], files), ms[i + 1..], files)
  {
    assert ms[i..][0] == ms[i] && ms[i..][1..] == ms[i + 1..];
  }

  /** An aborted fold stays as it is. */
  lemma ScanModulesHalted(s: Scan, ms: seq<Module>, files: Files)
    requires s.halted
    ensures ScanModules(s, ms, files) == s
  {
  }

  /** The whole run. A missing `modules` list is fatal before any issue is recorded. */
  function Validate(toc: Toc, files: Files): (r: Validation)
    ensures (r.Aborted? && r.cause == MissingModules) <==> toc.modules.NoModules?
    ensures r.Aborted? && r.cause == MissingModules ==> r.issues == []
    ensures r.Completed? ==> r.verdict == VerdictOf(r.issues)
  {
    match toc.modules
    case NoModules => Aborted(MissingModules, [])
    case Modules(ms) =>
      var s := ScanModules(Start, ms, files);
      if s.halted then Aborted(ArticlePathNotString, s.issues)
      else Completed(s.issues, s.moduleIds, s.articleIds, VerdictOf(s.issues))
  }

  /** Appending one line sets a flag exactly when the line has that severity. */
  lemma AppendIssue(issues: seq<Issue>, x: Issue)
    ensures HasError(issues + [x]) == (HasError(issues) || x.severity == Error)
    ensures HasWarning(issues + [x]) == (HasWarning(issues) || x.severity == Warning)
  {
    assert x in issues + [x];
    assert forall y :: y in issues ==> y in issues + [x];
  }

  /** Regrouping the line blocks the field and document checks append: proved apart
      from the methods that use it, whose own contexts are large. */
  lemma AppendAssociates4(s: seq<Issue>, p1: seq<Issue>, p2: seq<Issue>, p3: seq<Issue>, p4: seq<Issue>)
    ensures s + p1 + p2 + p3 + p4 == s + (p1 + p2 + p3 + p4)
  {
  }

  lemma AppendAssociates(s: seq<Issue>, p1: seq<Issue>, p2: seq<Issue>, p3: seq<Issue>)
    ensures s + p1 + p2 + p3 == s + (p1 + p2 + p3)
  {
  }

  /** Lines 60-83 of the module loop: the module's own field checks, on the script's
      local variables. */
  method ValidateModuleFields(m: Module, issues: seq<Issue>, moduleIds: set<Value>, hasErrors: bool, hasWarnings: bool)
    returns (issues': seq<Issue>, moduleIds': set<Value>, hasErrors': bool, hasWarnings': bool)
    requires hasErrors == HasError(issues) && hasWarnings == HasWarning(issues)
    ensures issues' == issues + ModuleFieldIssues(m, moduleIds)
    ensures moduleIds' == Record(m.id, moduleIds)
    ensures hasErrors' == HasError(issues') && hasWarnings' == HasWarning(issues')
  {
    ghost var p1 := IdIssues(m.id, moduleIds, ModuleMissingId, DuplicateModuleId);
    ghost var p2 := if !Truthy(m.title) then [Issue(Error, ModuleMissingTitle, m.id)] else [];
    ghost var p3 := if !Truthy(m.description) then [Issue(Warning, ModuleMissingDescription, m.id)] else [];
    ghost var p4 := if !Truthy(m.icon) then [Issue(Warning, ModuleMissingIcon, m.id)] else [];
    issues', moduleIds', hasErrors', hasWarnings' := issues, moduleIds, hasErrors, hasWarnings;
    if !Truthy(m.id) {
      AppendIssue(issues', Issue(Error, ModuleMissingId, Undefined));
      issues' := issues' + [Issue(Error, ModuleMissingId, Undefined)];
      hasErrors' := true;
    } else if m.id in moduleIds' {
      AppendIssue(issues', Issue(Error, DuplicateModuleId, m.id));
      issues' := issues' + [Issue(Error, DuplicateModuleId, m.id)];
      hasErrors' := true;
    } else {
      moduleIds' := moduleIds' + {m.id};
    }
    assert issues' == issues + p1;
    if !Truthy(m.title) {
      AppendIssue(issues', Issue(Error, ModuleMissingTitle, m.id));
      issues' := issues' + [Issue(Error, ModuleMissingTitle, m.id)];
      hasErrors' := true;
    }
    assert issues' == issues + p1 + p2;
    if !Truthy(m.description) {
      AppendIssue(issues', Issue(Warning, ModuleMissingDescription, m.id));
      issues' := issues' + [Issue(Warning, ModuleMissingDescription, m.id)];
      hasWarnings' := true;
    }
    assert issues' == issues + p1 + p2 + p3;
    if !Truthy(m.icon) {
      AppendIssue(issues', Issue(Warning, ModuleMissingIcon, m.id));
      issues' := issues' + [Issue(Warning, ModuleMissingIcon, m.id)];
      hasWarnings' := true;
    }
    assert issues' == issues + p1 + p2 + p3 + p4;
    AppendAssociates4(issues, p1, p2, p3, p4);
  }

  /** Lines 124-148 for a document that loaded: the front-matter consistency warnings
      and the empty-content error. */
  method ValidateDocument(a: ArticleRef, moduleId: Value, doc: Document, issues: seq<Issue>, hasErrors: bool, hasWarnings: bool)
    returns (issues': seq<Issue>, hasErrors': bool, hasWarnings': bool)
    requires hasErrors == HasError(issues) && hasWarnings == HasWarning(issues)
    ensures issues' == issues + DocumentIssues(a, moduleId, doc)
    ensures hasErrors' == HasError(issues') && hasWarnings' == HasWarning(issues')
  {
    issues', hasErrors', hasWarnings' := issues, hasErrors, hasWarnings;
    var declaredId := Field(doc.data, "id");
    var declaredModule := Field(doc.data, "moduleId");
    if Truthy(declaredId) && declaredId != a.id {
      AppendIssue(issues', Issue(Warning, FrontMatterIdDiffers(declaredId), a.id));
      issues' := issues' + [Issue(Warning, FrontMatterIdDiffers(declaredId), a.id)];
      hasWarnings' := true;
    }
    ghost var p1 := IdDrift(a, doc);
    assert issues' == issues + p1;
    ghost var afterDeclaredId := issues';
    if Truthy(declaredModule) && declaredModule != moduleId {
      AppendIssue(issues', Issue(Warning, FrontMatterModuleIdDiffers(declaredModule), moduleId));
      issues' := issues' + [Issue(Warning, FrontMatterModuleIdDiffers(declaredModule), moduleId)];
      hasWarnings' := true;
    }
    ghost var p2 := ModuleDrift(moduleId, doc);
    assert issues' == afterDeclaredId + p2;
    ghost var afterDeclaredModule := issues';
    if Trim(doc.content) == "" {
      AppendIssue(issues', Issue(Error, ArticleNoContent, a.id));
      issues' := issues' + [Issue(Error, ArticleNoContent, a.id)];
      hasErrors' := true;
    }
    ghost var p3 := ContentCheck(a, doc);
    assert issues' == afterDeclaredModule + p3;
    AppendAssociates(issues, p1, p2, p3);
  }

  /** Lines 94-106 of the article loop: the reference's id and title checks. A missing
      id or title is reported and the article's checks go on. */
  method ValidateArticleFields(a: ArticleRef, issues: seq<Issue>, articleIds: set<Value>, hasErrors: bool, hasWarnings: bool)
    returns (issues': seq<Issue>, articleIds': set<Value>, hasErrors': bool, hasWarnings': bool)
    requires hasErrors == HasError(issues) && hasWarnings == HasWarning(issues)
    ensures issues' == issues + IdIssues(a.id, articleIds, ArticleMissingId, DuplicateArticleId) +
                       (if !Truthy(a.title) then [Issue(Error, ArticleMissingTitle, a.id)] else [])
    ensures articleIds' == Record(a.id, articleIds)
    ensures hasErrors' == HasError(issues') && hasWarnings' == HasWarning(issues')
  {
    issues', articleIds', hasErrors', hasWarnings' := issues, articleIds, hasErrors, hasWarnings;
    if !Truthy(a.id) {
      AppendIssue(issues', Issue(Error, ArticleMissingId, Undefined));
      issues' := issues' + [Issue(Error, ArticleMissingId, Undefined)];
      hasErrors' := true;
    } else if a.id in articleIds' {
      AppendIssue(issues', Issue(Error, DuplicateArticleId, a.id));
      issues' := issues' + [Issue(Error, DuplicateArticleId, a.id)];
      hasErrors' := true;
    } else {
      articleIds' := articleIds' + {a.id};
    }
    assert issues' == issues + IdIssues(a.id, articleIds, ArticleMissingId, DuplicateArticleId);
    ghost var afterId := issues';
    if !Truthy(a.title) {
      AppendIssue(issues', Issue(Error, ArticleMissingTitle, a.id));
      issues' := issues' + [Issue(Error, ArticleMissingTitle, a.id)];
      hasErrors' := true;
    }
  }

  /** Lines 109-148 of the article loop: the file checks; `aborted` is set where
      `path.join` throws. */
  method ValidateArticleFile(a: ArticleRef, moduleId: Value, files: Files, issues: seq<Issue>, hasErrors: bool, hasWarnings: bool)
    returns (issues': seq<Issue>, hasErrors': bool, hasWarnings': bool, aborted: bool)
    requires hasErrors == HasError(issues) && hasWarnings == HasWarning(issues)
    ensures aborted <==> FileIssues(a, moduleId, files).PathThrows?
    ensures issues' == if aborted then issues else issues + FileIssues(a, moduleId, files).issues
    ensures hasErrors' == HasError(issues') && hasWarnings' == HasWarning(issues')
  {
    issues', hasErrors', hasWarnings', aborted := issues, hasErrors, hasWarnings, false;
    if !Truthy(a.file) {
      AppendIssue(issues', Issue(Error, ArticleMissingFile, a.id));
      issues' := issues' + [Issue(Error, ArticleMissingFile, a.id)];
      hasErrors' := true;
      return;
    }
    if !a.file.Str? {
      aborted := true;
      return;
    }
    match Load(files, a.file.s) {
    case NotFound =>
      AppendIssue(issues', Issue(Error, ArticleFileNotFound, a.file));
      issues' := issues' + [Issue(Error, ArticleFileNotFound, a.file)];
      hasErrors' := true;
    case Unreadable(message) =>
      AppendIssue(issues', Issue(Error, ArticleParseError(message), a.file));
      issues' := issues' + [Issue(Error, ArticleParseError(message), a.file)];
      hasErrors' := true;
    case Loaded(doc) =>
      issues', hasErrors', hasWarnings' := ValidateDocument(a, moduleId, doc, issues', hasErrors', hasWarnings');
    }
  }

  /** Lines 92-149: the article loop of one module, with its `continue`s; it stops
      where `path.join` throws. */
  method ValidateArticles(refs: seq<ArticleRef>, moduleId: Value, files: Files, ghost moduleIds: set<Value>,
                          issues: seq<Issue>, articleIds: set<Value>, hasErrors: bool, hasWarnings: bool)
    returns (issues': seq<Issue>, articleIds': set<Value>, hasErrors': bool, hasWarnings': bool, aborted: bool)
    requires hasErrors == HasError(issues) && hasWarnings == HasWarning(issues)
    ensures ScanArticles(Scan(issues, moduleIds, articleIds, false), refs, moduleId, files)
            == Scan(issues', moduleIds, articleIds', aborted)
    ensures hasErrors' == HasError(issues') && hasWarnings' == HasWarning(issues')
  {
    issues', articleIds', hasErrors', hasWarnings', aborted := issues, articleIds, hasErrors, hasWarnings, false;
    var j := 0;
    while j < |refs|
      invariant 0 <= j <= |refs|
      invariant ScanArticles(Scan(issues', moduleIds, articleIds', false), refs[j..], moduleId, files)
                == ScanArticles(Scan(issues, moduleIds, articleIds, false), refs, moduleId, files)
      invariant hasErrors' == HasError(issues') && hasWarnings' == HasWarning(issues')
    {
      ghost var at := Scan(issues', moduleIds, articleIds', false);
      assert refs[j..][1..] == refs[j + 1..];
      var a := refs[j];
      issues', articleIds', hasErrors', hasWarnings' := ValidateArticleFields(a, issues', articleIds', hasErrors', hasWarnings');
      issues', hasErrors', hasWarnings', aborted := ValidateArticleFile(a, moduleId, files, issues', hasErrors', hasWarnings');
      assert CheckArticle(at, a, moduleId, files) == Scan(issues', moduleIds, articleIds', aborted);
      if aborted {
        return;
      }
      j := j + 1;
    }
  }

  /** One pass of the module loop: the module's field checks, then either the
      `continue` of a module without an article list or its article loop. */
  method ValidateModule(m: Module, files: Files, issues: seq<Issue>, moduleIds: set<Value>, articleIds: set<Value>,
                        hasErrors: bool, hasWarnings: bool)
    returns (issues': seq<Issue>, moduleIds': set<Value>, articleIds': set<Value>,
             hasErrors': bool, hasWarnings': bool, aborted: bool)
    requires hasErrors == HasError(issues) && hasWarnings == HasWarning(issues)
    ensures CheckModule(Scan(issues, moduleIds, articleIds, false), m, files)
            == Scan(issues', moduleIds', articleIds', aborted)
    ensures hasErrors' == HasError(issues') && hasWarnings' == HasWarning(issues')
  {
    ghost var before := Scan(issues, moduleIds, articleIds, false);
    issues', moduleIds', hasErrors', hasWarnings' := ValidateModuleFields(m, issues, moduleIds, hasErrors, hasWarnings);
    articleIds', aborted := articleIds, false;
    assert Scan(issues', moduleIds', articleIds', false) == CheckModuleFields(before, m);
    if m.articles.NotAList? {
      AppendIssue(issues', Issue(Warning, ModuleHasNoArticles, m.id));
      issues' := issues' + [Issue(Warning, ModuleHasNoArticles, m.id)];
      hasWarnings' := true;
      return;
    }
    issues', articleIds', hasErrors', hasWarnings', aborted :=
      ValidateArticles(m.articles.refs, m.id, files, moduleIds', issues', articleIds', hasErrors', hasWarnings');
  }

  /** The module loop of `validateHelpCenter` over the TOC's module list, from empty
      locals: the lines, the two id sets and the two flags it leaves, and whether an
      article `file` aborted it. */
  method ValidateModules(ms: seq<Module>, files: Files)
    returns (issues: seq<Issue>, moduleIds: set<Value>, articleIds: set<Value>,
             hasErrors: bool, hasWarnings: bool, aborted: bool)
    ensures ScanModules(Start, ms, files) == Scan(issues, moduleIds, articleIds, aborted)
    ensures hasErrors == HasError(issues) && hasWarnings == HasWarning(issues)
  {
    hasErrors, hasWarnings, aborted := false, false, false;
    issues, moduleIds, articleIds := [], {}, {};
    var i := 0;
    while i < |ms|
      invariant 0 <= i <= |ms|
      invariant ScanModules(Scan(issues, moduleIds, articleIds, false), ms[i..], files) == ScanModules(Start, ms, files)
      invariant hasErrors == HasError(issues) && hasWarnings == HasWarning(issues)
    {
      ScanModulesStep(Scan(issues, moduleIds, articleIds, false), ms, i, files);
      issues, moduleIds, articleIds, hasErrors, hasWarnings, aborted :=
        ValidateModule(ms[i], files, issues, moduleIds, articleIds, hasErrors, hasWarnings);
      if aborted {
        ScanModulesHalted(Scan(issues, moduleIds, articleIds, true), ms[i + 1..], files);
        return;
      }
      i := i + 1;
    }
  }

  /** `validateHelpCenter`: the missing-modules check, the module loop, and the
      verdict from the two flags. */
  method ValidateHelpCenter(toc: Toc, files: Files) returns (v: Validation)
    ensures v == Validate(toc, files)
  {
    if toc.modules.NoModules? {
      return Aborted(MissingModules, []);
    }
    var issues, moduleIds, articleIds, hasErrors, hasWarnings, aborted := ValidateModules(toc.modules.items, files);
    if aborted {
      return Aborted(ArticlePathNotString, issues);
    }
    var verdict := if hasErrors then Failed else if hasWarnings then PassedWithWarnings else Passed;
    return Completed(issues, moduleIds, articleIds, verdict);
  }
}
