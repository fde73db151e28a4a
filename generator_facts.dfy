/** What the generator's specification guarantees: one output module per TOC module, in
    order; each module's articles are its TOC articles whose files exist, in order,
    resolved; the run fails exactly when some article `file` is not a string or names
    a file that cannot be read; the first such article decides the failure; and the
    printed article count is the number of articles written. */
module GeneratorFacts {
  import opened JsValues
  import opened Outline
  import opened Generator

  /** The article's `file` is a string naming a file that exists and decodes. */
  predicate LoadsFine(a: ArticleRef, files: Files) {
    a.file.Str? && Load(files, a.file.s).Loaded?
  }

  /** The article's `file` does not make the run fail: a string that names no file,
      or a file that decodes. */
  predicate Harmless(a: ArticleRef, files: Files) {
    a.file.Str? && !Load(files, a.file.s).Unreadable?
  }

  /** The references, in order, whose files load. */
  function Loadable(refs: seq<ArticleRef>, files: Files): (r: seq<ArticleRef>)
    ensures |r| <= |refs|
    ensures forall a :: a in r <==> a in refs && LoadsFine(a, files)
  {
    if refs == [] then []
    else (if LoadsFine(refs[0], files) then [refs[0]] else []) + Loadable(refs[1..], files)
  }

  /** Filtering keeps the order: the kept references of `a + b` are those of `a`
      followed by those of `b`. */
  lemma {:induction false} LoadableAppend(a: seq<ArticleRef>, b: seq<ArticleRef>, files: Files)
    ensures Loadable(a + b, files) == Loadable(a, files) + Loadable(b, files)
  {
    if a == [] {
      assert a + b == b;
    } else {
      assert (a + b)[0] == a[0] && (a + b)[1..] == a[1..] + b;
      LoadableAppend(a[1..], b, files);
      var head := if LoadsFine(a[0], files) then [a[0]] else [];
      assert head + (Loadable(a[1..], files) + Loadable(b, files)) == head + Loadable(a[1..], files) + Loadable(b, files);
    }
  }

  /** Nothing is dropped exactly when every file loads. */
  lemma {:induction false} LoadableKeepsAll(refs: seq<ArticleRef>, files: Files)
    ensures |Loadable(refs, files)| == |refs| <==> forall a :: a in refs ==> LoadsFine(a, files)
    ensures (forall a :: a in refs ==> LoadsFine(a, files)) ==> Loadable(refs, files) == refs
  {
    if refs != [] {
      LoadableKeepsAll(refs[1..], files);
      assert forall a :: a in refs <==> a == refs[0] || a in refs[1..];
    }
  }

  /** One module's article loop ends normally exactly when every `file` is harmless. */
  lemma {:induction false} ResolveArticlesSucceedsIff(refs: seq<ArticleRef>, moduleId: Value, files: Files)
    ensures ResolveArticles(refs, moduleId, files).Ok? <==> forall a :: a in refs ==> Harmless(a, files)
    decreases |refs|
  {
    if refs != [] {
      ResolveArticlesSucceedsIff(refs[1..], moduleId, files);
      assert ArticleStep(refs[0], moduleId, files).Fail? <==> !Harmless(refs[0], files);
      assert forall a :: a in refs <==> a == refs[0] || a in refs[1..];
    }
  }

  /** A failing article loop fails with the cause of its first failing article, and
      every article before it was harmless. */
  lemma {:induction false} FirstFailureDecides(refs: seq<ArticleRef>, moduleId: Value, files: Files)
    requires ResolveArticles(refs, moduleId, files).Err?
    ensures exists k :: 0 <= k < |refs| && ArticleStep(refs[k], moduleId, files) == Fail(ResolveArticles(refs, moduleId, files).cause) &&
              forall l :: 0 <= l < k ==> !ArticleStep(refs[l], moduleId, files).Fail?
    decreases |refs|
  {
    var cause := ResolveArticles(refs, moduleId, files).cause;
    if ArticleStep(refs[0], moduleId, files).Fail? {
      assert ArticleStep(refs[0], moduleId, files) == Fail(cause);
    } else {
      assert ResolveArticles(refs[1..], moduleId, files).Err? && ResolveArticles(refs[1..], moduleId, files).cause == cause;
      FirstFailureDecides(refs[1..], moduleId, files);
      var k :| 0 <= k < |refs[1..]| && ArticleStep(refs[1..][k], moduleId, files) == Fail(cause) &&
               forall l :: 0 <= l < k ==> !ArticleStep(refs[1..][l], moduleId, files).Fail?;
      assert ArticleStep(refs[k + 1], moduleId, files) == Fail(cause);
      forall l | 0 <= l < k + 1 ensures !ArticleStep(refs[l], moduleId, files).Fail? {
        if l > 0 {
          assert refs[l] == refs[1..][l - 1];
        }
      }
    }
  }

  /** Each of `refs`, whose files all load, resolved against its own document. */
  function ResolveEach(refs: seq<ArticleRef>, moduleId: Value, files: Files): (rs: seq<ResolvedArticle>)
    requires forall a :: a in refs ==> LoadsFine(a, files)
    ensures |rs| == |refs|
    ensures forall k :: 0 <= k < |refs| ==> refs[k] in refs && LoadsFine(refs[k], files) &&
                                             rs[k] == Resolve(refs[k], moduleId, Load(files, refs[k].file.s).doc)
  {
    if refs == [] then []
    else
      var a := refs[0];
      assert a in refs && LoadsFine(a, files);
      [Resolve(a, moduleId, Load(files, a.file.s).doc)] + ResolveEach(refs[1..], moduleId, files)
  }

  /** A successful article loop writes the references whose files load, in TOC
      order, each resolved against its own document. */
  lemma {:induction false} ResolveArticlesResolvesLoadable(refs: seq<ArticleRef>, moduleId: Value, files: Files)
    requires ResolveArticles(refs, moduleId, files).Ok?
    ensures ResolveArticles(refs, moduleId, files).value == ResolveEach(Loadable(refs, files), moduleId, files)
    decreases |refs|
  {
    if refs != [] {
      var a := refs[0];
      ResolveArticlesResolvesLoadable(refs[1..], moduleId, files);
      var rest := ResolveArticles(refs[1..], moduleId, files).value;
      if LoadsFine(a, files) {
        var kept := Loadable(refs, files);
        assert kept == [a] + Loadable(refs[1..], files);
        assert kept[0] == a && kept[1..] == Loadable(refs[1..], files);
        assert ResolveArticles(refs, moduleId, files).value == [Resolve(a, moduleId, Load(files, a.file.s).doc)] + rest;
      } else {
        assert Loadable(refs, files) == Loadable(refs[1..], files);
        assert ResolveArticles(refs, moduleId, files).value == rest;
      }
    }
  }

  /** The module loop ends normally exactly when every `file` of every module with an
      article list is harmless. */
  lemma {:induction false} ProcessModulesSucceedsIff(ms: seq<Module>, files: Files)
    ensures ProcessModules(ms, files).Ok? <==> forall m, a :: m in ms && a in RefsOf(m) ==> Harmless(a, files)
    decreases |ms|
  {
    if ms != [] {
      ResolveArticlesSucceedsIff(RefsOf(ms[0]), ms[0].id, files);
      ProcessModulesSucceedsIff(ms[1..], files);
      assert forall m :: m in ms <==> m == ms[0] || m in ms[1..];
    }
  }

  /** A successful module loop writes one module per TOC module, in order: the TOC
      module's shell (copied id and title, defaults for the rest) holding the articles
      of its own loop. */
  lemma {:induction false} ProcessModulesKeepsModules(ms: seq<Module>, files: Files)
    requires ProcessModules(ms, files).Ok?
    ensures var oms := ProcessModules(ms, files).value;
      |oms| == |ms| &&
      forall i :: 0 <= i < |ms| ==> oms[i] == ModuleShell(ms[i]).(articles := oms[i].articles) &&
                                    ResolveArticles(RefsOf(ms[i]), ms[i].id, files) == Ok(oms[i].articles)
    decreases |ms|
  {
    if ms != [] {
      ProcessModulesKeepsModules(ms[1..], files);
      var oms := ProcessModules(ms, files).value;
      var rest := ProcessModules(ms[1..], files).value;
      assert oms == [ProcessModule(ms[0], files).value] + rest;
      forall i | 0 <= i < |ms| ensures oms[i] == ModuleShell(ms[i]).(articles := oms[i].articles) &&
                                       ResolveArticles(RefsOf(ms[i]), ms[i].id, files) == Ok(oms[i].articles) {
        if i > 0 {
          assert oms[i] == rest[i - 1] && ms[i] == ms[1..][i - 1];
        }
      }
    }
  }

  /** The article count of a successful run is the number of references, across all
      modules, whose files load. */
  lemma {:induction false} TotalCountsLoadable(ms: seq<Module>, files: Files)
    requires ProcessModules(ms, files).Ok?
    ensures TotalArticles(ProcessModules(ms, files).value) == |Loadable(AllRefs(ms), files)|
    decreases |ms|
  {
    if ms != [] {
      var om := ProcessModule(ms[0], files).value;
      TotalCountsLoadable(ms[1..], files);
      ResolveArticlesResolvesLoadable(RefsOf(ms[0]), ms[0].id, files);
      assert ProcessModules(ms, files).value == [om] + ProcessModules(ms[1..], files).value;
      assert AllRefs(ms) == RefsOf(ms[0]) + AllRefs(ms[1..]);
      LoadableAppend(RefsOf(ms[0]), AllRefs(ms[1..]), files);
    }
  }

  /** A run produces output exactly when the TOC has a module list and every article
      `file` is harmless. */
  lemma GenerateSucceedsIff(toc: Toc, files: Files)
    ensures Generate(toc, files).Generated? <==>
              toc.modules.Modules? && forall m, a :: m in toc.modules.items && a in RefsOf(m) ==> Harmless(a, files)
  {
    if toc.modules.Modules? {
      ProcessModulesSucceedsIff(toc.modules.items, files);
    }
  }

  /** The output of a successful run: a truthy version (the TOC's when truthy); one
      module per TOC module, in order, with its defaults; each module's articles the
      resolved references whose files load, in order, never more than the TOC lists;
      and an article count equal to the number of references whose files load, equal
      to the TOC's count exactly when every file loads. */
  lemma GeneratedOutput(toc: Toc, files: Files)
    requires Generate(toc, files).Generated?
    ensures var g := Generate(toc, files); var ms := toc.modules.items; var oms := g.output.modules;
      Truthy(g.output.version) && (Truthy(toc.version) ==> g.output.version == toc.version) &&
      |oms| == |ms| &&
      (forall i :: 0 <= i < |ms| ==>
         oms[i] == ModuleShell(ms[i]).(articles := oms[i].articles) &&
         |oms[i].articles| == |Loadable(RefsOf(ms[i]), files)| <= |RefsOf(ms[i])|) &&
      g.totalArticles == |Loadable(AllRefs(ms), files)| <= |AllRefs(ms)| &&
      (g.totalArticles == |AllRefs(ms)| <==> forall a :: a in AllRefs(ms) ==> LoadsFine(a, files))
  {
    var ms := toc.modules.items;
    var oms := ProcessModules(ms, files).value;
    ProcessModulesKeepsModules(ms, files);
    TotalCountsLoadable(ms, files);
    LoadableKeepsAll(AllRefs(ms), files);
    forall i | 0 <= i < |ms| ensures |oms[i].articles| == |Loadable(RefsOf(ms[i]), files)| {
      ResolveArticlesResolvesLoadable(RefsOf(ms[i]), ms[i].id, files);
    }
  }
}
