/** What the validator's specification guarantees: the issue list only grows and each
    line goes to the channel its kind calls for; the id sets hold exactly the distinct
    truthy ids; duplicates are reported exactly for repeated ids, article ids across
    all modules; a file problem ends an article's checks with one error; and a run
    reports nothing at all exactly when the outline is well formed. */
module ValidatorFacts {
  import opened JsValues
  import opened Outline
  import opened Validator

  /** Kinds of issue the article loop can report. */
  predicate ArticleLevel(k: Kind) {
    k.ArticleMissingId? || k.DuplicateArticleId? || k.ArticleMissingTitle? || k.ArticleMissingFile? ||
    k.ArticleFileNotFound? || k.ArticleParseError? || k.FrontMatterIdDiffers? ||
    k.FrontMatterModuleIdDiffers? || k.ArticleNoContent?
  }

  /** Every line went to the channel its kind calls for. */
  predicate Channelled(issues: seq<Issue>) {
    forall x :: x in issues ==> x.severity == SeverityOf(x.kind)
  }

  /** `v` is a truthy id met again: it was in `seen` or earlier in `ids` when met at
      some position of `ids`. */
  predicate SeenAgain(ids: seq<Value>, seen: set<Value>, v: Value) {
    Truthy(v) && exists j :: 0 <= j < |ids| && ids[j] == v && (v in seen || v in ids[..j])
  }

  /** The ids of `ids` are never met again. */
  ghost predicate Fresh(ids: seq<Value>, seen: set<Value>) {
    forall v :: !SeenAgain(ids, seen, v)
  }

  // ---------------------------------------------------------------------------
  // The issue list only grows.

  lemma DocumentIssuesAreArticleLevel(a: ArticleRef, moduleId: Value, doc: Document)
    ensures forall x :: x in DocumentIssues(a, moduleId, doc) ==>
              ArticleLevel(x.kind) && x.severity == SeverityOf(x.kind) && !x.kind.DuplicateArticleId?
  {
    var p1: seq<Issue>, p2: seq<Issue>, p3: seq<Issue> := IdDrift(a, doc), ModuleDrift(moduleId, doc), ContentCheck(a, doc);
    forall x | x in p1 + p2 + p3 ensures ArticleLevel(x.kind) && x.severity == SeverityOf(x.kind) && !x.kind.DuplicateArticleId? {
      assert x in p1 || x in p2 || x in p3;
    }
  }

  lemma FileIssuesAreArticleLevel(a: ArticleRef, moduleId: Value, files: Files)
    ensures FileIssues(a, moduleId, files).Checked? ==>
              forall x :: x in FileIssues(a, moduleId, files).issues ==>
                ArticleLevel(x.kind) && x.severity == SeverityOf(x.kind) && !x.kind.DuplicateArticleId?
  {
    if Truthy(a.file) && a.file.Str? && Load(files, a.file.s).Loaded? {
      DocumentIssuesAreArticleLevel(a, moduleId, Load(files, a.file.s).doc);
    }
  }

  /** An article pass only appends article-level lines, each on its kind's channel, and
      leaves the module ids alone. */
  lemma CheckArticleAppends(s: Scan, a: ArticleRef, moduleId: Value, files: Files)
    ensures var r := CheckArticle(s, a, moduleId, files);
      s.issues <= r.issues && r.moduleIds == s.moduleIds &&
      forall k :: |s.issues| <= k < |r.issues| ==> ArticleLevel(r.issues[k].kind) && r.issues[k].severity == SeverityOf(r.issues[k].kind)
  {
    FileIssuesAreArticleLevel(a, moduleId, files);
    var r := CheckArticle(s, a, moduleId, files);
    forall k | |s.issues| <= k < |r.issues|
      ensures ArticleLevel(r.issues[k].kind) && r.issues[k].severity == SeverityOf(r.issues[k].kind)
    {
      assert r.issues[k] in r.issues[|s.issues|..];
    }
  }

  lemma {:induction false} ScanArticlesAppends(s: Scan, refs: seq<ArticleRef>, moduleId: Value, files: Files)
    ensures var r := ScanArticles(s, refs, moduleId, files);
      s.issues <= r.issues && r.moduleIds == s.moduleIds && (s.halted ==> r == s) &&
      forall k :: |s.issues| <= k < |r.issues| ==> ArticleLevel(r.issues[k].kind) && r.issues[k].severity == SeverityOf(r.issues[k].kind)
    decreases |refs|
  {
    if refs != [] && !s.halted {
      var s' := CheckArticle(s, refs[0], moduleId, files);
      CheckArticleAppends(s, refs[0], moduleId, files);
      ScanArticlesAppends(s', refs[1..], moduleId, files);
    }
  }

  /** A module's own field lines are module-level, each on its kind's channel. */
  lemma ModuleFieldIssuesAreModuleLevel(m: Module, moduleIds: set<Value>)
    ensures forall x :: x in ModuleFieldIssues(m, moduleIds) ==> !ArticleLevel(x.kind) && x.severity == SeverityOf(x.kind)
  {
  }

  /** A module's own field checks only append lines, each on its kind's channel. */
  lemma CheckModuleFieldsAppends(s: Scan, m: Module)
    ensures var h := CheckModuleFields(s, m);
      s.issues <= h.issues && (Channelled(s.issues) ==> Channelled(h.issues))
  {
    ModuleFieldIssuesAreModuleLevel(m, s.moduleIds);
  }

  lemma CheckModuleAppends(s: Scan, m: Module, files: Files)
    ensures var r := CheckModule(s, m, files);
      s.issues <= r.issues && (Channelled(s.issues) ==> Channelled(r.issues))
  {
    var h := CheckModuleFields(s, m);
    CheckModuleFieldsAppends(s, m);
    if m.articles.Listed? {
      ScanArticlesAppends(h, m.articles.refs, m.id, files);
    }
    var r := CheckModule(s, m, files);
    if Channelled(h.issues) {
      forall x | x in r.issues ensures x.severity == SeverityOf(x.kind) {
        var k :| 0 <= k < |r.issues| && r.issues[k] == x;
        if k < |h.issues| {
          assert x in h.issues;
        }
      }
    }
  }

  lemma {:induction false} ScanModulesAppends(s: Scan, ms: seq<Module>, files: Files)
    ensures var r := ScanModules(s, ms, files);
      s.issues <= r.issues && (s.halted ==> r == s) && (Channelled(s.issues) ==> Channelled(r.issues))
    decreases |ms|
  {
    if ms != [] && !s.halted {
      CheckModuleAppends(s, ms[0], files);
      ScanModulesAppends(CheckModule(s, ms[0], files), ms[1..], files);
    }
  }

  /** Each line goes to the channel its kind calls for; in particular a missing
      description or icon is only ever a warning, never an error. */
  lemma SeverityFollowsKind(toc: Toc, files: Files)
    ensures Channelled(Validate(toc, files).issues)
    ensures forall x :: x in Validate(toc, files).issues && (x.kind == ModuleMissingDescription || x.kind == ModuleMissingIcon)
              ==> x.severity == Warning
  {
    if toc.modules.Modules? {
      ScanModulesAppends(Start, toc.modules.items, files);
    }
  }

  // ---------------------------------------------------------------------------
  // The id sets.

  lemma TruthyIdsCons(x: Value, ids: seq<Value>)
    ensures TruthyIds([x] + ids) == (if Truthy(x) then {x} else {}) + TruthyIds(ids)
  {
    assert forall v :: v in [x] + ids <==> v == x || v in ids;
  }

  lemma TruthyIdsAppend(a: seq<Value>, b: seq<Value>)
    ensures TruthyIds(a + b) == TruthyIds(a) + TruthyIds(b)
  {
    assert forall v :: v in a + b <==> v in a || v in b;
  }

  lemma ArticleIdsAppend(a: seq<ArticleRef>, b: seq<ArticleRef>)
    ensures ArticleIds(a + b) == ArticleIds(a) + ArticleIds(b)
  {
  }

  lemma {:induction false} ScanArticlesRecordsIds(s: Scan, refs: seq<ArticleRef>, moduleId: Value, files: Files)
    requires !ScanArticles(s, refs, moduleId, files).halted
    ensures ScanArticles(s, refs, moduleId, files).articleIds == s.articleIds + TruthyIds(ArticleIds(refs))
    decreases |refs|
  {
    if refs != [] {
      assert ArticleIds(refs) == [refs[0].id] + ArticleIds(refs[1..]);
      TruthyIdsCons(refs[0].id, ArticleIds(refs[1..]));
      ScanArticlesRecordsIds(CheckArticle(s, refs[0], moduleId, files), refs[1..], moduleId, files);
    }
  }

  /** The truthy ids of a module list: those of its first module and those of the rest. */
  lemma FirstModuleIds(ms: seq<Module>)
    requires ms != []
    ensures TruthyIds(ModuleIds(ms)) == (if Truthy(ms[0].id) then {ms[0].id} else {}) + TruthyIds(ModuleIds(ms[1..]))
    ensures TruthyIds(ArticleIds(AllRefs(ms))) == TruthyIds(ArticleIds(RefsOf(ms[0]))) + TruthyIds(ArticleIds(AllRefs(ms[1..])))
  {
    assert ModuleIds(ms) == [ms[0].id] + ModuleIds(ms[1..]);
    TruthyIdsCons(ms[0].id, ModuleIds(ms[1..]));
    ArticleIdsAppend(RefsOf(ms[0]), AllRefs(ms[1..]));
    TruthyIdsAppend(ArticleIds(RefsOf(ms[0])), ArticleIds(AllRefs(ms[1..])));
  }

  /** One module that does not abort records its id if truthy and new, and the
      distinct truthy ids of its articles. */
  lemma CheckModuleRecordsIds(s: Scan, m: Module, files: Files)
    requires !CheckModule(s, m, files).halted
    ensures CheckModule(s, m, files).moduleIds == Record(m.id, s.moduleIds)
    ensures CheckModule(s, m, files).articleIds == s.articleIds + TruthyIds(ArticleIds(RefsOf(m)))
  {
    var h := CheckModuleFields(s, m);
    if m.articles.Listed? {
      ScanArticlesAppends(h, m.articles.refs, m.id, files);
      ScanArticlesRecordsIds(h, m.articles.refs, m.id, files);
    } else {
      assert TruthyIds(ArticleIds(RefsOf(m))) == {};
    }
  }

  lemma {:induction false} ScanModulesRecordsIds(s: Scan, ms: seq<Module>, files: Files)
    requires !ScanModules(s, ms, files).halted
    ensures ScanModules(s, ms, files).moduleIds == s.moduleIds + TruthyIds(ModuleIds(ms))
    ensures ScanModules(s, ms, files).articleIds == s.articleIds + TruthyIds(ArticleIds(AllRefs(ms)))
    decreases |ms|
  {
    if ms != [] && !s.halted {
      var m := ms[0];
      var s' := CheckModule(s, m, files);
      ScanModulesRecordsIds(s', ms[1..], files);
      CheckModuleRecordsIds(s, m, files);
      FirstModuleIds(ms);
    }
  }

  /** The summary counts: a finished run's module id set is exactly the distinct truthy
      module ids, and its article id set exactly the distinct truthy article ids of
      every module with an article list; so each id is counted once however often it
      occurs. */
  lemma IdSetsHoldDistinctTruthyIds(toc: Toc, files: Files)
    requires Validate(toc, files).Completed?
    ensures Validate(toc, files).moduleIds == TruthyIds(ModuleIds(toc.modules.items))
    ensures Validate(toc, files).articleIds == TruthyIds(ArticleIds(AllRefs(toc.modules.items)))
  {
    ScanModulesRecordsIds(Start, toc.modules.items, files);
  }

  // ---------------------------------------------------------------------------
  // Duplicates.

  lemma SeenAgainConsHead(x: Value, ids: seq<Value>, seen: set<Value>, v: Value)
    requires SeenAgain([x] + ids, seen, v)
    ensures (Truthy(v) && x == v && v in seen) || SeenAgain(ids, Record(x, seen), v)
  {
    var xs := [x] + ids;
    var j :| 0 <= j < |xs| && xs[j] == v && (v in seen || v in xs[..j]);
    if j > 0 {
      assert xs[..j] == [x] + ids[..j - 1];
      assert ids[j - 1] == v;
    }
  }

  lemma SeenAgainConsTail(x: Value, ids: seq<Value>, seen: set<Value>, v: Value)
    requires SeenAgain(ids, Record(x, seen), v)
    ensures SeenAgain([x] + ids, seen, v)
  {
    var xs := [x] + ids;
    var j :| 0 <= j < |ids| && ids[j] == v && (v in Record(x, seen) || v in ids[..j]);
    assert xs[j + 1] == v && xs[..j + 1] == [x] + ids[..j];
    assert v in Record(x, seen) ==> v in seen || v == x;
    assert x in xs[..j + 1];
    assert v in ids[..j] ==> v in xs[..j + 1];
  }

  lemma SeenAgainCons(x: Value, ids: seq<Value>, seen: set<Value>, v: Value)
    ensures SeenAgain([x] + ids, seen, v) <==> (Truthy(v) && x == v && v in seen) || SeenAgain(ids, Record(x, seen), v)
  {
    var xs := [x] + ids;
    if SeenAgain(xs, seen, v) {
      SeenAgainConsHead(x, ids, seen, v);
    }
    if SeenAgain(ids, Record(x, seen), v) {
      SeenAgainConsTail(x, ids, seen, v);
    }
    if Truthy(v) && x == v && v in seen {
      assert xs[0] == v;
    }
  }

  lemma {:induction false} SeenAgainAppend(a: seq<Value>, b: seq<Value>, seen: set<Value>, v: Value)
    ensures SeenAgain(a + b, seen, v) <==> SeenAgain(a, seen, v) || SeenAgain(b, seen + TruthyIds(a), v)
    decreases |a|
  {
    if a == [] {
      assert a + b == b;
      assert TruthyIds(a) == {};
      assert !SeenAgain(a, seen, v);
    } else {
      var x, rest := a[0], a[1..];
      assert a == [x] + rest;
      assert a + b == [x] + (rest + b);
      SeenAgainCons(x, rest + b, seen, v);
      SeenAgainCons(x, rest, seen, v);
      SeenAgainAppend(rest, b, Record(x, seen), v);
      TruthyIdsCons(x, rest);
      assert Record(x, seen) + TruthyIds(rest) == seen + TruthyIds(a);
    }
  }

  lemma SeenAgainFromNothing(ids: seq<Value>, v: Value)
    ensures SeenAgain(ids, {}, v) <==> Repeated(ids, v)
  {
    if SeenAgain(ids, {}, v) {
      var j :| 0 <= j < |ids| && ids[j] == v && v in ids[..j];
      var i :| 0 <= i < j && ids[..j][i] == v;
      assert ids[i] == v;
    }
    if Repeated(ids, v) {
      var i, j :| 0 <= i < j < |ids| && ids[i] == v && ids[j] == v;
      assert ids[..j][i] == v;
    }
  }

  /** One article adds a duplicate-article-id error for `v` exactly when its id is `v`,
      truthy and already recorded. */
  lemma CheckArticleReportsDuplicate(s: Scan, a: ArticleRef, moduleId: Value, files: Files, v: Value)
    ensures Issue(Error, DuplicateArticleId, v) in CheckArticle(s, a, moduleId, files).issues <==>
              Issue(Error, DuplicateArticleId, v) in s.issues || (Truthy(a.id) && a.id in s.articleIds && a.id == v)
  {
    var dup := Issue(Error, DuplicateArticleId, v);
    var titleIssues := if !Truthy(a.title) then [Issue(Error, ArticleMissingTitle, a.id)] else [];
    var ids := IdIssues(a.id, s.articleIds, ArticleMissingId, DuplicateArticleId);
    var before := s.issues + ids + titleIssues;
    assert dup in before <==> dup in s.issues || dup in ids || dup in titleIssues;
    FileIssuesAreArticleLevel(a, moduleId, files);
    var f := FileIssues(a, moduleId, files);
    if f.Checked? {
      assert CheckArticle(s, a, moduleId, files).issues == before + f.issues;
      assert dup !in f.issues;
    }
  }

  lemma {:induction false} ScanArticlesReportsDuplicates(s: Scan, refs: seq<ArticleRef>, moduleId: Value, files: Files, v: Value)
    requires !ScanArticles(s, refs, moduleId, files).halted
    ensures Issue(Error, DuplicateArticleId, v) in ScanArticles(s, refs, moduleId, files).issues <==>
              Issue(Error, DuplicateArticleId, v) in s.issues || SeenAgain(ArticleIds(refs), s.articleIds, v)
    decreases |refs|
  {
    var dup := Issue(Error, DuplicateArticleId, v);
    if refs == [] {
      assert !SeenAgain(ArticleIds(refs), s.articleIds, v);
    } else {
      var a := refs[0];
      var s' := CheckArticle(s, a, moduleId, files);
      ScanArticlesAppends(s', refs[1..], moduleId, files);
      ScanArticlesReportsDuplicates(s', refs[1..], moduleId, files, v);
      CheckArticleReportsDuplicate(s, a, moduleId, files, v);
      assert ArticleIds(refs) == [a.id] + ArticleIds(refs[1..]);
      SeenAgainCons(a.id, ArticleIds(refs[1..]), s.articleIds, v);
    }
  }

  /** The module step reports its id as a duplicate exactly when it is truthy and
      already recorded; its article loop adds no module-level line. */
  lemma CheckModuleReportsDuplicateModule(s: Scan, m: Module, files: Files, v: Value)
    ensures Issue(Error, DuplicateModuleId, v) in CheckModule(s, m, files).issues <==>
              Issue(Error, DuplicateModuleId, v) in s.issues || (Truthy(m.id) && m.id in s.moduleIds && m.id == v)
    ensures CheckModule(s, m, files).moduleIds == Record(m.id, s.moduleIds)
  {
    var dup := Issue(Error, DuplicateModuleId, v);
    var h := CheckModuleFields(s, m);
    var s' := CheckModule(s, m, files);
    assert dup in h.issues <==> dup in s.issues || (Truthy(m.id) && m.id in s.moduleIds && m.id == v);
    if m.articles.Listed? {
      ScanArticlesAppends(h, m.articles.refs, m.id, files);
      if dup in s'.issues {
        var k :| 0 <= k < |s'.issues| && s'.issues[k] == dup;
        if k < |h.issues| {
          assert h.issues[k] == dup;
        }
      }
    }
    assert dup in s'.issues <==> dup in h.issues;
  }

  /** The module loop reports a module id as a duplicate exactly when it meets it again. */
  lemma {:induction false} ScanModulesReportsDuplicateModules(s: Scan, ms: seq<Module>, files: Files, v: Value)
    requires !ScanModules(s, ms, files).halted
    ensures Issue(Error, DuplicateModuleId, v) in ScanModules(s, ms, files).issues <==>
              Issue(Error, DuplicateModuleId, v) in s.issues || SeenAgain(ModuleIds(ms), s.moduleIds, v)
    decreases |ms|
  {
    if ms == [] {
      assert !SeenAgain(ModuleIds(ms), s.moduleIds, v);
    } else {
      var m := ms[0];
      var s' := CheckModule(s, m, files);
      ScanModulesAppends(s', ms[1..], files);
      ScanModulesReportsDuplicateModules(s', ms[1..], files, v);
      CheckModuleReportsDuplicateModule(s, m, files, v);
      assert ModuleIds(ms) == [m.id] + ModuleIds(ms[1..]);
      SeenAgainCons(m.id, ModuleIds(ms[1..]), s.moduleIds, v);
    }
  }

  /** The module step reports an article id as a duplicate exactly when its article
      loop meets it again, and hands on the article ids it recorded. */
  lemma CheckModuleReportsDuplicateArticles(s: Scan, m: Module, files: Files, v: Value)
    requires !CheckModule(s, m, files).halted
    ensures Issue(Error, DuplicateArticleId, v) in CheckModule(s, m, files).issues <==>
              Issue(Error, DuplicateArticleId, v) in s.issues || SeenAgain(ArticleIds(RefsOf(m)), s.articleIds, v)
    ensures CheckModule(s, m, files).articleIds == s.articleIds + TruthyIds(ArticleIds(RefsOf(m)))
  {
    var dup := Issue(Error, DuplicateArticleId, v);
    var h := CheckModuleFields(s, m);
    assert dup in h.issues <==> dup in s.issues;
    if m.articles.Listed? {
      ScanArticlesReportsDuplicates(h, m.articles.refs, m.id, files, v);
      ScanArticlesRecordsIds(h, m.articles.refs, m.id, files);
    } else {
      assert !SeenAgain(ArticleIds(RefsOf(m)), s.articleIds, v);
      assert TruthyIds(ArticleIds(RefsOf(m))) == {};
    }
  }

  /** The whole loop reports an article id as a duplicate exactly when it meets it
      again anywhere in the article lists, across module boundaries. */
  lemma {:induction false} ScanModulesReportsDuplicateArticles(s: Scan, ms: seq<Module>, files: Files, v: Value)
    requires !ScanModules(s, ms, files).halted
    ensures Issue(Error, DuplicateArticleId, v) in ScanModules(s, ms, files).issues <==>
              Issue(Error, DuplicateArticleId, v) in s.issues || SeenAgain(ArticleIds(AllRefs(ms)), s.articleIds, v)
    decreases |ms|
  {
    if ms == [] {
      assert !SeenAgain(ArticleIds(AllRefs(ms)), s.articleIds, v);
    } else {
      var m := ms[0];
      var s' := CheckModule(s, m, files);
      ScanModulesAppends(s', ms[1..], files);
      ScanModulesReportsDuplicateArticles(s', ms[1..], files, v);
      CheckModuleReportsDuplicateArticles(s, m, files, v);
      assert AllRefs(ms) == RefsOf(m) + AllRefs(ms[1..]);
      ArticleIdsAppend(RefsOf(m), AllRefs(ms[1..]));
      SeenAgainAppend(ArticleIds(RefsOf(m)), ArticleIds(AllRefs(ms[1..])), s.articleIds, v);
    }
  }

  /** A duplicate module id is reported, as an error naming the id, exactly when that
      truthy id is declared by two modules; a duplicate article id exactly when that
      truthy id is declared twice among all articles, in one module or in two. */
  lemma DuplicatesReportedExactly(toc: Toc, files: Files, v: Value)
    requires Validate(toc, files).Completed?
    ensures Issue(Error, DuplicateModuleId, v) in Validate(toc, files).issues <==> Repeated(ModuleIds(toc.modules.items), v)
    ensures Issue(Error, DuplicateArticleId, v) in Validate(toc, files).issues <==> Repeated(ArticleIds(AllRefs(toc.modules.items)), v)
  {
    var ms := toc.modules.items;
    ScanModulesReportsDuplicateModules(Start, ms, files, v);
    ScanModulesReportsDuplicateArticles(Start, ms, files, v);
    SeenAgainFromNothing(ModuleIds(ms), v);
    SeenAgainFromNothing(ArticleIds(AllRefs(ms)), v);
  }

  // ---------------------------------------------------------------------------
  // What one module or one article contributes.

  /** A module whose `articles` is absent or not a list gets exactly one warning after
      its own field checks, no article-level line, no new article id, and the loop
      goes on with the next module. */
  lemma ModuleWithoutArticleList(s: Scan, m: Module, rest: seq<Module>, files: Files)
    requires m.articles.NotAList? && !s.halted
    ensures var r := CheckModule(s, m, files);
      !r.halted && r.articleIds == s.articleIds &&
      r.issues == CheckModuleFields(s, m).issues + [Issue(Warning, ModuleHasNoArticles, m.id)] &&
      (forall k :: |s.issues| <= k < |r.issues| ==> !ArticleLevel(r.issues[k].kind)) &&
      ScanModules(s, [m] + rest, files) == ScanModules(r, rest, files)
  {
    var r := CheckModule(s, m, files);
    var added := ModuleFieldIssues(m, s.moduleIds) + [Issue(Warning, ModuleHasNoArticles, m.id)];
    ModuleFieldIssuesAreModuleLevel(m, s.moduleIds);
    assert r.issues == s.issues + added;
    forall k | |s.issues| <= k < |r.issues| ensures !ArticleLevel(r.issues[k].kind) {
      assert r.issues[k] == added[k - |s.issues|];
    }
    assert ([m] + rest)[1..] == rest;
  }

  /** Only the file checks end an article early. A missing `file`, a file that does not
      exist and a file that cannot be read or decoded each add exactly one error after
      the id and title lines, and no front-matter or content line. */
  lemma FileProblemEndsArticle(s: Scan, a: ArticleRef, moduleId: Value, files: Files)
    requires !Truthy(a.file) || (a.file.Str? && !Load(files, a.file.s).Loaded?)
    ensures var r := CheckArticle(s, a, moduleId, files);
      var before := s.issues + IdIssues(a.id, s.articleIds, ArticleMissingId, DuplicateArticleId) +
                    (if !Truthy(a.title) then [Issue(Error, ArticleMissingTitle, a.id)] else []);
      r.halted == s.halted && |r.issues| == |before| + 1 && r.issues[..|before|] == before &&
      r.issues[|before|].severity == Error &&
      (r.issues[|before|].kind.ArticleMissingFile? || r.issues[|before|].kind.ArticleFileNotFound? ||
       r.issues[|before|].kind.ArticleParseError?)
  {
    var f := FileIssues(a, moduleId, files);
    assert f.Checked? && |f.issues| == 1 && f.issues[0].severity == Error;
    var before := s.issues + IdIssues(a.id, s.articleIds, ArticleMissingId, DuplicateArticleId) +
                  (if !Truthy(a.title) then [Issue(Error, ArticleMissingTitle, a.id)] else []);
    var r := CheckArticle(s, a, moduleId, files);
    assert r.issues == before + f.issues;
  }

  /** The lines a loaded document can produce, one condition each. */
  lemma DocumentIssuesMembers(a: ArticleRef, moduleId: Value, doc: Document, x: Issue)
    ensures x in DocumentIssues(a, moduleId, doc) <==>
              (x == Issue(Warning, FrontMatterIdDiffers(Field(doc.data, "id")), a.id) &&
               Truthy(Field(doc.data, "id")) && Field(doc.data, "id") != a.id) ||
              (x == Issue(Warning, FrontMatterModuleIdDiffers(Field(doc.data, "moduleId")), moduleId) &&
               Truthy(Field(doc.data, "moduleId")) && Field(doc.data, "moduleId") != moduleId) ||
              (x == Issue(Error, ArticleNoContent, a.id) && Trim(doc.content) == "")
  {
    var p1: seq<Issue>, p2: seq<Issue>, p3: seq<Issue> := IdDrift(a, doc), ModuleDrift(moduleId, doc), ContentCheck(a, doc);
    assert x in p1 + p2 + p3 <==> x in p1 || x in p2 || x in p3;
  }

  /** The checks on a loaded document: a front-matter `id` (or `moduleId`) drift
      warning appears exactly when the declared value is truthy and differs from the
      TOC article id (or the parent module id), and the no-content error exactly when
      the body is white space only. */
  lemma DocumentChecksExactly(a: ArticleRef, moduleId: Value, doc: Document)
    ensures (exists x :: x in DocumentIssues(a, moduleId, doc) && x.kind.FrontMatterIdDiffers?) <==>
              Truthy(Field(doc.data, "id")) && Field(doc.data, "id") != a.id
    ensures (exists x :: x in DocumentIssues(a, moduleId, doc) && x.kind.FrontMatterModuleIdDiffers?) <==>
              Truthy(Field(doc.data, "moduleId")) && Field(doc.data, "moduleId") != moduleId
    ensures Issue(Error, ArticleNoContent, a.id) in DocumentIssues(a, moduleId, doc) <==>
              forall i :: 0 <= i < |doc.content| ==> IsSpace(doc.content[i])
    ensures forall x :: x in DocumentIssues(a, moduleId, doc) ==> (x.severity == Error <==> x.kind.ArticleNoContent?)
  {
    var found := DocumentIssues(a, moduleId, doc);
    TrimFacts(doc.content);
    var idLine := Issue(Warning, FrontMatterIdDiffers(Field(doc.data, "id")), a.id);
    var moduleLine := Issue(Warning, FrontMatterModuleIdDiffers(Field(doc.data, "moduleId")), moduleId);
    forall x ensures x in found <==>
              (x == idLine && Truthy(Field(doc.data, "id")) && Field(doc.data, "id") != a.id) ||
              (x == moduleLine && Truthy(Field(doc.data, "moduleId")) && Field(doc.data, "moduleId") != moduleId) ||
              (x == Issue(Error, ArticleNoContent, a.id) && Trim(doc.content) == "")
    {
      DocumentIssuesMembers(a, moduleId, doc, x);
    }
    if Truthy(Field(doc.data, "id")) && Field(doc.data, "id") != a.id {
      assert idLine in found;
    }
    if Truthy(Field(doc.data, "moduleId")) && Field(doc.data, "moduleId") != moduleId {
      assert moduleLine in found;
    }
  }

  // ---------------------------------------------------------------------------
  // Every file problem reaches the report.

  /** One article that does not abort has its file checked, and all the file's lines
      are in the report after it. */
  lemma CheckArticleReportsFile(s: Scan, a: ArticleRef, moduleId: Value, files: Files)
    requires !CheckArticle(s, a, moduleId, files).halted
    ensures FileIssues(a, moduleId, files).Checked?
    ensures forall x :: x in FileIssues(a, moduleId, files).issues ==> x in CheckArticle(s, a, moduleId, files).issues
  {
  }

  lemma {:induction false} ScanArticlesReportsFiles(s: Scan, refs: seq<ArticleRef>, moduleId: Value, files: Files)
    requires !ScanArticles(s, refs, moduleId, files).halted
    ensures forall a :: a in refs ==> FileIssues(a, moduleId, files).Checked?
    ensures forall a, x :: a in refs && FileIssues(a, moduleId, files).Checked? && x in FileIssues(a, moduleId, files).issues
              ==> x in ScanArticles(s, refs, moduleId, files).issues
    decreases |refs|
  {
    if refs != [] {
      var a := refs[0];
      var s' := CheckArticle(s, a, moduleId, files);
      var r := ScanArticles(s', refs[1..], moduleId, files);
      assert !s'.halted;
      ScanArticlesAppends(s', refs[1..], moduleId, files);
      ScanArticlesReportsFiles(s', refs[1..], moduleId, files);
      CheckArticleReportsFile(s, a, moduleId, files);
      forall b, x | b in refs && FileIssues(b, moduleId, files).Checked? && x in FileIssues(b, moduleId, files).issues
        ensures x in r.issues
      {
        if b == a {
          assert x in s'.issues;
        } else {
          assert b in refs[1..];
        }
      }
      forall b | b in refs ensures FileIssues(b, moduleId, files).Checked? {
        if b != a {
          assert b in refs[1..];
        }
      }
    }
  }

  /** In one module that does not abort, every article's file lines reach the report. */
  lemma CheckModuleReportsFiles(s: Scan, m: Module, files: Files)
    requires !CheckModule(s, m, files).halted
    ensures forall a :: a in RefsOf(m) ==> FileIssues(a, m.id, files).Checked?
    ensures forall a, x :: a in RefsOf(m) && FileIssues(a, m.id, files).Checked? && x in FileIssues(a, m.id, files).issues
              ==> x in CheckModule(s, m, files).issues
  {
    if m.articles.Listed? {
      ScanArticlesReportsFiles(CheckModuleFields(s, m), m.articles.refs, m.id, files);
    }
  }

  lemma {:induction false} ScanModulesReportsFiles(s: Scan, ms: seq<Module>, files: Files)
    requires !ScanModules(s, ms, files).halted
    ensures forall m, a :: m in ms && a in RefsOf(m) ==> FileIssues(a, m.id, files).Checked?
    ensures forall m, a, x :: m in ms && a in RefsOf(m) && FileIssues(a, m.id, files).Checked? && x in FileIssues(a, m.id, files).issues
              ==> x in ScanModules(s, ms, files).issues
    decreases |ms|
  {
    if ms != [] && !s.halted {
      var m := ms[0];
      var s' := CheckModule(s, m, files);
      var r := ScanModules(s', ms[1..], files);
      ScanModulesAppends(s', ms[1..], files);
      ScanModulesReportsFiles(s', ms[1..], files);
      CheckModuleReportsFiles(s, m, files);
      forall n, a, x | n in ms && a in RefsOf(n) && FileIssues(a, n.id, files).Checked? && x in FileIssues(a, n.id, files).issues
        ensures x in r.issues
      {
        if n == m {
          assert x in s'.issues;
        } else {
          assert n in ms[1..];
        }
      }
      forall n, a | n in ms && a in RefsOf(n) ensures FileIssues(a, n.id, files).Checked? {
        if n != m {
          assert n in ms[1..];
        }
      }
    }
  }

  /** In a run that finishes, a referenced file that does not exist is reported as an
      error naming it. A run aborted by an earlier non-string `file` never reaches it. */
  lemma MissingFileReported(toc: Toc, files: Files, m: Module, a: ArticleRef)
    requires Validate(toc, files).Completed?
    requires m in toc.modules.items && a in RefsOf(m)
    requires a.file.Str? && a.file.s != "" && Load(files, a.file.s).NotFound?
    ensures Issue(Error, ArticleFileNotFound, a.file) in Validate(toc, files).issues
  {
    ScanModulesReportsFiles(Start, toc.modules.items, files);
    assert Issue(Error, ArticleFileNotFound, a.file) in FileIssues(a, m.id, files).issues;
  }

  /** A run that finishes without errors has a string `file` for every article it
      visited, and every one of those files loaded. */
  lemma ErrorFreeRunLoadsEveryFile(toc: Toc, files: Files)
    requires Validate(toc, files).Completed? && Validate(toc, files).verdict != Failed
    ensures forall m, a :: m in toc.modules.items && a in RefsOf(m) ==> a.file.Str? && Load(files, a.file.s).Loaded?
  {
    var ms := toc.modules.items;
    var issues := Validate(toc, files).issues;
    ScanModulesReportsFiles(Start, ms, files);
    forall m, a | m in ms && a in RefsOf(m) ensures a.file.Str? && Load(files, a.file.s).Loaded? {
    }
  }


  // ---------------------------------------------------------------------------
  // Missing ids and titles are errors.

  /** The error lines a falsy article `id` or `title` calls for are in `issues`. */
  predicate ArticleFieldErrorsIn(a: ArticleRef, issues: seq<Issue>) {
    (!Truthy(a.id) ==> Issue(Error, ArticleMissingId, Undefined) in issues) &&
    (!Truthy(a.title) ==> Issue(Error, ArticleMissingTitle, a.id) in issues)
  }

  /** The error lines a falsy module `id` or `title` calls for are in `issues`. */
  predicate ModuleFieldErrorsIn(m: Module, issues: seq<Issue>) {
    (!Truthy(m.id) ==> Issue(Error, ModuleMissingId, Undefined) in issues) &&
    (!Truthy(m.title) ==> Issue(Error, ModuleMissingTitle, m.id) in issues)
  }

  /** A line printed earlier is still printed after more lines follow. */
  lemma PrefixKeepsLines(xs: seq<Issue>, ys: seq<Issue>)
    requires xs <= ys
    ensures forall x :: x in xs ==> x in ys
  {
    forall x | x in xs ensures x in ys {
      var i :| 0 <= i < |xs| && xs[i] == x;
      assert ys[i] == x;
    }
  }

  /** One article that does not abort prints the missing-id and missing-title errors
      its fields call for. */
  lemma CheckArticleReportsFields(s: Scan, a: ArticleRef, moduleId: Value, files: Files)
    requires !CheckArticle(s, a, moduleId, files).halted
    ensures ArticleFieldErrorsIn(a, CheckArticle(s, a, moduleId, files).issues)
  {
    var titleIssues := if !Truthy(a.title) then [Issue(Error, ArticleMissingTitle, a.id)] else [];
    var ids := IdIssues(a.id, s.articleIds, ArticleMissingId, DuplicateArticleId);
    var r := CheckArticle(s, a, moduleId, files);
    assert r.issues == s.issues + ids + titleIssues + FileIssues(a, moduleId, files).issues;
    if !Truthy(a.id) {
      assert r.issues[|s.issues|] == Issue(Error, ArticleMissingId, Undefined);
    }
    if !Truthy(a.title) {
      assert r.issues[|s.issues| + |ids|] == Issue(Error, ArticleMissingTitle, a.id);
    }
  }

  lemma {:induction false} ScanArticlesReportsFields(s: Scan, refs: seq<ArticleRef>, moduleId: Value, files: Files)
    requires !ScanArticles(s, refs, moduleId, files).halted
    ensures forall a :: a in refs ==> ArticleFieldErrorsIn(a, ScanArticles(s, refs, moduleId, files).issues)
    decreases |refs|
  {
    if refs != [] {
      var a := refs[0];
      var s' := CheckArticle(s, a, moduleId, files);
      var r := ScanArticles(s', refs[1..], moduleId, files);
      assert !s'.halted;
      ScanArticlesAppends(s', refs[1..], moduleId, files);
      ScanArticlesReportsFields(s', refs[1..], moduleId, files);
      CheckArticleReportsFields(s, a, moduleId, files);
      PrefixKeepsLines(s'.issues, r.issues);
      forall b | b in refs ensures ArticleFieldErrorsIn(b, r.issues) {
        if b != a {
          assert b in refs[1..];
        }
      }
    }
  }

  /** One module that does not abort prints the missing-id and missing-title errors
      of its own fields and of each of its articles. */
  lemma CheckModuleReportsFields(s: Scan, m: Module, files: Files)
    requires !CheckModule(s, m, files).halted
    ensures ModuleFieldErrorsIn(m, CheckModule(s, m, files).issues)
    ensures forall a :: a in RefsOf(m) ==> ArticleFieldErrorsIn(a, CheckModule(s, m, files).issues)
  {
    var h := CheckModuleFields(s, m);
    var r := CheckModule(s, m, files);
    var ids := IdIssues(m.id, s.moduleIds, ModuleMissingId, DuplicateModuleId);
    assert h.issues == s.issues + ids + ModuleFieldIssues(m, s.moduleIds)[|ids|..];
    if !Truthy(m.id) {
      assert h.issues[|s.issues|] == Issue(Error, ModuleMissingId, Undefined);
    }
    if !Truthy(m.title) {
      assert h.issues[|s.issues| + |ids|] == Issue(Error, ModuleMissingTitle, m.id);
    }
    if m.articles.Listed? {
      ScanArticlesAppends(h, m.articles.refs, m.id, files);
      ScanArticlesReportsFields(h, m.articles.refs, m.id, files);
    }
    PrefixKeepsLines(h.issues, r.issues);
  }

  lemma {:induction false} ScanModulesReportsFields(s: Scan, ms: seq<Module>, files: Files)
    requires !ScanModules(s, ms, files).halted
    ensures forall m :: m in ms ==> ModuleFieldErrorsIn(m, ScanModules(s, ms, files).issues)
    ensures forall m, a :: m in ms && a in RefsOf(m) ==> ArticleFieldErrorsIn(a, ScanModules(s, ms, files).issues)
    decreases |ms|
  {
    if ms != [] && !s.halted {
      var m := ms[0];
      var s' := CheckModule(s, m, files);
      var r := ScanModules(s', ms[1..], files);
      ScanModulesAppends(s', ms[1..], files);
      ScanModulesReportsFields(s', ms[1..], files);
      CheckModuleReportsFields(s, m, files);
      PrefixKeepsLines(s'.issues, r.issues);
      forall n | n in ms ensures ModuleFieldErrorsIn(n, r.issues) {
        if n != m {
          assert n in ms[1..];
        }
      }
      forall n, a | n in ms && a in RefsOf(n) ensures ArticleFieldErrorsIn(a, r.issues) {
        if n != m {
          assert n in ms[1..];
        }
      }
    }
  }

  /** In a run that finishes, every module and every article with a falsy `id` or
      `title` has its missing-id or missing-title error in the report. */
  lemma MissingIdsAndTitlesReported(toc: Toc, files: Files)
    requires Validate(toc, files).Completed?
    ensures forall m :: m in toc.modules.items ==> ModuleFieldErrorsIn(m, Validate(toc, files).issues)
    ensures forall m, a :: m in toc.modules.items && a in RefsOf(m) ==> ArticleFieldErrorsIn(a, Validate(toc, files).issues)
  {
    ScanModulesReportsFields(Start, toc.modules.items, files);
  }

  /** A finished run that did not fail met only modules and articles with a truthy
      `id` and a truthy `title`. */
  lemma ErrorFreeRunHasIdsAndTitles(toc: Toc, files: Files)
    requires Validate(toc, files).Completed? && Validate(toc, files).verdict != Failed
    ensures forall m :: m in toc.modules.items ==> Truthy(m.id) && Truthy(m.title)
    ensures forall m, a :: m in toc.modules.items && a in RefsOf(m) ==> Truthy(a.id) && Truthy(a.title)
  {
    var issues := Validate(toc, files).issues;
    assert !HasError(issues);
    MissingIdsAndTitlesReported(toc, files);
    forall m | m in toc.modules.items ensures Truthy(m.id) && Truthy(m.title) {
      assert ModuleFieldErrorsIn(m, issues);
      assert Issue(Error, ModuleMissingId, Undefined) !in issues;
      assert Issue(Error, ModuleMissingTitle, m.id) !in issues;
    }
    forall m, a | m in toc.modules.items && a in RefsOf(m) ensures Truthy(a.id) && Truthy(a.title) {
      assert ArticleFieldErrorsIn(a, issues);
      assert Issue(Error, ArticleMissingId, Undefined) !in issues;
      assert Issue(Error, ArticleMissingTitle, a.id) !in issues;
    }
  }

  // ---------------------------------------------------------------------------
  // A clean run.

  /** An article the validator has nothing to say about: id, title and `file` present,
      the file loads, its front-matter agrees with the TOC where it says anything, and
      its body has a character that is not white space. */
  predicate ArticleSound(a: ArticleRef, moduleId: Value, files: Files) {
    Truthy(a.id) && Truthy(a.title) && a.file.Str? && a.file.s != "" &&
    match Load(files, a.file.s)
    case Loaded(doc) =>
      (!Truthy(Field(doc.data, "id")) || Field(doc.data, "id") == a.id) &&
      (!Truthy(Field(doc.data, "moduleId")) || Field(doc.data, "moduleId") == moduleId) &&
      exists i :: 0 <= i < |doc.content| && !IsSpace(doc.content[i])
    case _ => false
  }

  /** A module with every field filled in, an article list, and sound articles. */
  predicate ModuleSound(m: Module, files: Files) {
    Truthy(m.id) && Truthy(m.title) && Truthy(m.description) && Truthy(m.icon) && m.articles.Listed? &&
    forall a :: a in m.articles.refs ==> ArticleSound(a, m.id, files)
  }

  /** A well-formed outline: a module list of sound modules, no module id twice, and no
      article id twice across the whole outline. */
  predicate WellFormed(toc: Toc, files: Files) {
    toc.modules.Modules? &&
    (forall m :: m in toc.modules.items ==> ModuleSound(m, files)) &&
    PairwiseDistinct(ModuleIds(toc.modules.items)) &&
    PairwiseDistinct(ArticleIds(AllRefs(toc.modules.items)))
  }

  lemma FreshCons(x: Value, ids: seq<Value>, seen: set<Value>)
    ensures Fresh([x] + ids, seen) <==> !(Truthy(x) && x in seen) && Fresh(ids, Record(x, seen))
  {
    forall v ensures SeenAgain([x] + ids, seen, v) <==> (Truthy(v) && x == v && v in seen) || SeenAgain(ids, Record(x, seen), v) {
      SeenAgainCons(x, ids, seen, v);
    }
    if !Fresh([x] + ids, seen) {
      var v :| SeenAgain([x] + ids, seen, v);
    }
    if Truthy(x) && x in seen {
      assert SeenAgain([x] + ids, seen, x);
    }
    if !Fresh(ids, Record(x, seen)) {
      var v :| SeenAgain(ids, Record(x, seen), v);
      assert SeenAgain([x] + ids, seen, v);
    }
  }

  lemma FreshAppend(a: seq<Value>, b: seq<Value>, seen: set<Value>)
    ensures Fresh(a + b, seen) <==> Fresh(a, seen) && Fresh(b, seen + TruthyIds(a))
  {
    forall v ensures SeenAgain(a + b, seen, v) <==> SeenAgain(a, seen, v) || SeenAgain(b, seen + TruthyIds(a), v) {
      SeenAgainAppend(a, b, seen, v);
    }
    if !Fresh(a, seen) {
      var v :| SeenAgain(a, seen, v);
      assert SeenAgain(a + b, seen, v);
    }
    if !Fresh(b, seen + TruthyIds(a)) {
      var v :| SeenAgain(b, seen + TruthyIds(a), v);
      assert SeenAgain(a + b, seen, v);
    }
  }

  lemma FreshFromNothing(ids: seq<Value>)
    requires forall i :: 0 <= i < |ids| ==> Truthy(ids[i])
    ensures Fresh(ids, {}) <==> PairwiseDistinct(ids)
  {
    forall v ensures SeenAgain(ids, {}, v) <==> Repeated(ids, v) {
      SeenAgainFromNothing(ids, v);
    }
    if !PairwiseDistinct(ids) {
      var i, j :| 0 <= i < j < |ids| && ids[i] == ids[j];
      assert Repeated(ids, ids[i]);
    }
  }

  lemma CheckArticleClean(s: Scan, a: ArticleRef, moduleId: Value, files: Files)
    ensures (CheckArticle(s, a, moduleId, files).issues == s.issues && !CheckArticle(s, a, moduleId, files).halted) <==>
              ArticleSound(a, moduleId, files) && !(Truthy(a.id) && a.id in s.articleIds) && !s.halted
  {
    if Truthy(a.file) && a.file.Str? && Load(files, a.file.s).Loaded? {
      var doc := Load(files, a.file.s).doc;
      DocumentChecksExactly(a, moduleId, doc);
      var found := DocumentIssues(a, moduleId, doc);
      if found == [] {
        assert !(exists x :: x in found && x.kind.FrontMatterIdDiffers?);
        assert !(exists x :: x in found && x.kind.FrontMatterModuleIdDiffers?);
        assert Trim(doc.content) != "";
      } else {
        assert found[0] in found;
      }
    }
  }

  /** Going from `before` to `after` printed nothing and did not abort. */
  predicate Quiet(before: Scan, after: Scan) {
    after.issues == before.issues && !after.halted
  }

  lemma {:induction false} ScanArticlesClean(s: Scan, refs: seq<ArticleRef>, moduleId: Value, files: Files)
    ensures Quiet(s, ScanArticles(s, refs, moduleId, files)) <==>
              !s.halted && (forall a :: a in refs ==> ArticleSound(a, moduleId, files)) && Fresh(ArticleIds(refs), s.articleIds)
    decreases |refs|
  {
    if refs != [] && !s.halted {
      var a := refs[0];
      var s' := CheckArticle(s, a, moduleId, files);
      var r := ScanArticles(s', refs[1..], moduleId, files);
      CheckArticleClean(s, a, moduleId, files);
      CheckArticleAppends(s, a, moduleId, files);
      ScanArticlesAppends(s', refs[1..], moduleId, files);
      ScanArticlesClean(s', refs[1..], moduleId, files);
      assert ArticleIds(refs) == [a.id] + ArticleIds(refs[1..]);
      FreshCons(a.id, ArticleIds(refs[1..]), s.articleIds);
      assert forall b :: b in refs <==> b == a || b in refs[1..];
      assert Quiet(s, r) <==> Quiet(s, s') && Quiet(s', r);
    }
  }

  lemma CheckModuleClean(s: Scan, m: Module, files: Files)
    requires !s.halted
    ensures Quiet(s, CheckModule(s, m, files)) <==>
              ModuleSound(m, files) && !(Truthy(m.id) && m.id in s.moduleIds) && Fresh(ArticleIds(RefsOf(m)), s.articleIds)
  {
    var h := CheckModuleFields(s, m);
    assert Quiet(s, h) <==> Truthy(m.id) && m.id !in s.moduleIds && Truthy(m.title) && Truthy(m.description) && Truthy(m.icon);
    if m.articles.Listed? {
      ScanArticlesAppends(h, m.articles.refs, m.id, files);
      ScanArticlesClean(h, m.articles.refs, m.id, files);
    }
  }

  lemma {:induction false} ScanModulesClean(s: Scan, ms: seq<Module>, files: Files)
    ensures Quiet(s, ScanModules(s, ms, files)) <==>
              !s.halted && (forall m :: m in ms ==> ModuleSound(m, files)) &&
              Fresh(ModuleIds(ms), s.moduleIds) && Fresh(ArticleIds(AllRefs(ms)), s.articleIds)
    decreases |ms|
  {
    if ms != [] && !s.halted {
      var m := ms[0];
      var s' := CheckModule(s, m, files);
      var r := ScanModules(s', ms[1..], files);
      CheckModuleClean(s, m, files);
      CheckModuleAppends(s, m, files);
      ScanModulesAppends(s', ms[1..], files);
      ScanModulesClean(s', ms[1..], files);
      assert ModuleIds(ms) == [m.id] + ModuleIds(ms[1..]);
      FreshCons(m.id, ModuleIds(ms[1..]), s.moduleIds);
      assert AllRefs(ms) == RefsOf(m) + AllRefs(ms[1..]);
      ArticleIdsAppend(RefsOf(m), AllRefs(ms[1..]));
      FreshAppend(ArticleIds(RefsOf(m)), ArticleIds(AllRefs(ms[1..])), s.articleIds);
      assert forall n :: n in ms <==> n == m || n in ms[1..];
      assert Quiet(s, r) <==> Quiet(s, s') && Quiet(s', r);
      if Quiet(s, s') {
        var h := CheckModuleFields(s, m);
        if m.articles.Listed? {
          ScanArticlesAppends(h, m.articles.refs, m.id, files);
          ScanArticlesRecordsIds(h, m.articles.refs, m.id, files);
        }
        assert s'.moduleIds == Record(m.id, s.moduleIds);
        assert s'.articleIds == s.articleIds + TruthyIds(ArticleIds(RefsOf(m)));
      }
    }
  }

  lemma {:induction false} RefsComeFromModules(ms: seq<Module>, a: ArticleRef)
    requires a in AllRefs(ms)
    ensures exists m :: m in ms && a in RefsOf(m)
  {
    if a in RefsOf(ms[0]) {
      assert ms[0] in ms;
    } else {
      RefsComeFromModules(ms[1..], a);
      var m :| m in ms[1..] && a in RefsOf(m);
      assert m in ms;
    }
  }

  /** A run finishes with the verdict "passed", printing no error and no warning,
      exactly when the outline is well formed. */
  lemma CleanRunIffWellFormed(toc: Toc, files: Files)
    ensures (Validate(toc, files).Completed? && Validate(toc, files).verdict == Passed) <==> WellFormed(toc, files)
  {
    if toc.modules.Modules? {
      var ms := toc.modules.items;
      ScanModulesClean(Start, ms, files);
      if forall m :: m in ms ==> ModuleSound(m, files) {
        var ids := ModuleIds(ms);
        assert forall i :: 0 <= i < |ids| ==> ids[i] == ms[i].id && ms[i] in ms;
        FreshFromNothing(ids);
        var refIds := ArticleIds(AllRefs(ms));
        forall i | 0 <= i < |refIds| ensures Truthy(refIds[i]) {
          var a := AllRefs(ms)[i];
          RefsComeFromModules(ms, a);
          var m :| m in ms && a in RefsOf(m);
        }
        FreshFromNothing(refIds);
      }
    }
  }
}
