/** How the two drivers agree on the same outline and the same files: an outline the
    validator passes without errors generates without failing and keeps every article;
    the validator's drift warnings flag exactly the articles whose generated id or
    module id departs from the TOC; and a well-formed outline generates articles that
    carry their TOC ids, their module's id, a title and a non-empty body. */
module Agreement {
  import opened JsValues
  import opened Outline
  import opened Validator
  import opened ValidatorFacts
  import opened Generator
  import opened GeneratorFacts

  /** A front-matter drift warning is printed for an article exactly when the
      generator would publish it under an id (or module id) other than the TOC's. */
  lemma DriftWarningIffResolvedDiffers(a: ArticleRef, moduleId: Value, doc: Document)
    ensures Resolve(a, moduleId, doc).id != a.id <==>
              exists x :: x in DocumentIssues(a, moduleId, doc) && x.kind.FrontMatterIdDiffers?
    ensures Resolve(a, moduleId, doc).moduleId != moduleId <==>
              exists x :: x in DocumentIssues(a, moduleId, doc) && x.kind.FrontMatterModuleIdDiffers?
  {
    DocumentChecksExactly(a, moduleId, doc);
  }

  /** An outline that the validator finishes without an error generates without
      failing, and no article is dropped: each output module holds as many articles as
      its TOC module lists, and the article count is the TOC's. */
  lemma ValidatedOutlineGenerates(toc: Toc, files: Files)
    requires Validate(toc, files).Completed? && Validate(toc, files).verdict != Failed
    ensures Generate(toc, files).Generated?
    ensures var ms := toc.modules.items; var oms := Generate(toc, files).output.modules;
      |oms| == |ms| &&
      (forall i :: 0 <= i < |ms| ==> |oms[i].articles| == |RefsOf(ms[i])|) &&
      Generate(toc, files).totalArticles == |AllRefs(ms)|
  {
    var ms := toc.modules.items;
    ErrorFreeRunLoadsEveryFile(toc, files);
    GenerateSucceedsIff(toc, files);
    GeneratedOutput(toc, files);
    forall a | a in AllRefs(ms) ensures LoadsFine(a, files) {
      RefsComeFromModules(ms, a);
    }
    LoadableKeepsAll(AllRefs(ms), files);
    forall i | 0 <= i < |ms| ensures |Loadable(RefsOf(ms[i]), files)| == |RefsOf(ms[i])| {
      assert ms[i] in ms;
      LoadableKeepsAll(RefsOf(ms[i]), files);
    }
  }

  /** The generated article for a sound TOC article keeps the TOC id, names its own
      module, has a title, and has a body that is not empty. */
  lemma SoundArticleResolvesFaithfully(a: ArticleRef, moduleId: Value, files: Files)
    requires ArticleSound(a, moduleId, files)
    ensures var r := Resolve(a, moduleId, Load(files, a.file.s).doc);
      r.id == a.id && r.moduleId == moduleId && Truthy(r.title) && r.content != ""
  {
    var doc := Load(files, a.file.s).doc;
    TrimFacts(doc.content);
    var i :| 0 <= i < |doc.content| && !IsSpace(doc.content[i]);
  }

  /** A well-formed outline generates, keeping every article in TOC order under its
      TOC id and its own module's id, each with a title and a non-empty body. */
  lemma WellFormedOutlineGeneratesFaithfully(toc: Toc, files: Files)
    requires WellFormed(toc, files)
    ensures Generate(toc, files).Generated?
    ensures var ms := toc.modules.items; var oms := Generate(toc, files).output.modules;
      |oms| == |ms| && Generate(toc, files).totalArticles == |AllRefs(ms)| &&
      forall i, k :: 0 <= i < |ms| && 0 <= k < |oms[i].articles| ==>
        k < |RefsOf(ms[i])| &&
        oms[i].articles[k].id == RefsOf(ms[i])[k].id && oms[i].articles[k].moduleId == ms[i].id &&
        Truthy(oms[i].articles[k].title) && oms[i].articles[k].content != ""
  {
    var ms := toc.modules.items;
    CleanRunIffWellFormed(toc, files);
    ValidatedOutlineGenerates(toc, files);
    var oms := Generate(toc, files).output.modules;
    ProcessModulesKeepsModules(ms, files);
    forall i, k | 0 <= i < |ms| && 0 <= k < |oms[i].articles|
      ensures k < |RefsOf(ms[i])| &&
        oms[i].articles[k].id == RefsOf(ms[i])[k].id && oms[i].articles[k].moduleId == ms[i].id &&
        Truthy(oms[i].articles[k].title) && oms[i].articles[k].content != ""
    {
      var m := ms[i];
      var refs := RefsOf(m);
      assert m in ms && ModuleSound(m, files);
      ResolveArticlesResolvesLoadable(refs, m.id, files);
      LoadableKeepsAll(refs, files);
      assert oms[i].articles == ResolveEach(refs, m.id, files);
      assert refs[k] in m.articles.refs;
      SoundArticleResolvesFaithfully(refs[k], m.id, files);
    }
  }
}
