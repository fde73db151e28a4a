/** The help-center generator: every module of the table of contents becomes an output
    module with defaults for its missing fields, every article whose file exists becomes
    a resolved article whose metadata comes from the file's front-matter first and the
    TOC second, and the run counts the articles it wrote. Any article `file` that is
    not a string, or a file that exists but cannot be read or decoded, ends the whole
    run with no output. */
module Generator {
  import opened JsValues
  import opened Outline

  /** One article of the output. */
  datatype ResolvedArticle = ResolvedArticle(id: Value, title: Value, moduleId: Value, order: Value, content: string)

  /** One module of the output. */
  datatype OutModule = OutModule(id: Value, title: Value, description: Value, icon: Value,
                                 order: Value, articles: seq<ResolvedArticle>)

  /** The output object, without its `generated` timestamp. */
  datatype Output = Output(version: Value, modules: seq<OutModule>)

  /** Why a run ends in the outer `catch`: no `modules` list; an article `file` on
      which `path.join` throws; a file that exists but whose read or front-matter
      decoding throws, with the thrown message. */
  datatype GenerateFailure = MissingModules | PathNotString | ReadFailed(message: string)

  /** What a run produces: the output and the article count its last line prints,
      or the failure that ended it. */
  datatype Generation = Generated(output: Output, totalArticles: nat) | GenerationFailed(cause: GenerateFailure)

  datatype Result<T> = Ok(value: T) | Err(cause: GenerateFailure)

  /** The metadata of one article: front-matter `id`, `title` and `moduleId` win when
      truthy, front-matter `order` wins whenever it is present (even `0`, `false` or
      `null`); otherwise the TOC article's values, the owning module's id, and the
      TOC `order` or `0`. The body is always the trimmed document text. */
  function Resolve(a: ArticleRef, moduleId: Value, doc: Document): (r: ResolvedArticle)
    ensures Truthy(Field(doc.data, "id")) ==> r.id == Field(doc.data, "id")
    ensures !Truthy(Field(doc.data, "id")) ==> r.id == a.id
    ensures Truthy(Field(doc.data, "title")) ==> r.title == Field(doc.data, "title")
    ensures !Truthy(Field(doc.data, "title")) ==> r.title == a.title
    ensures Truthy(Field(doc.data, "moduleId")) ==> r.moduleId == Field(doc.data, "moduleId")
    ensures !Truthy(Field(doc.data, "moduleId")) ==> r.moduleId == moduleId
    ensures Field(doc.data, "order") != Undefined ==> r.order == Field(doc.data, "order")
    ensures Field(doc.data, "order") == Undefined && Truthy(a.order) ==> r.order == a.order
    ensures Field(doc.data, "order") == Undefined && !Truthy(a.order) ==> r.order == Num(0)
    ensures r.content == Trim(doc.content) && |r.content| <= |doc.content|
  {
    TrimFacts(doc.content);
    var order := Field(doc.data, "order");
    ResolvedArticle(Or(Field(doc.data, "id"), a.id),
                    Or(Field(doc.data, "title"), a.title),
                    Or(Field(doc.data, "moduleId"), moduleId),
                    if order != Undefined then order else Or(a.order, Num(0)),
                    Trim(doc.content))
  }

  /** An output module before its articles: `id` and `title` copied, a falsy
      description, icon or order replaced by `''`, `'file'` or `0`. */
  function ModuleShell(m: Module): (r: OutModule)
    ensures r.id == m.id && r.title == m.title && r.articles == []
    ensures Truthy(m.description) ==> r.description == m.description
    ensures !Truthy(m.description) ==> r.description == Str("")
    ensures Truthy(r.icon) && (Truthy(m.icon) ==> r.icon == m.icon) && (!Truthy(m.icon) ==> r.icon == Str("file"))
    ensures Truthy(m.order) ==> r.order == m.order
    ensures !Truthy(m.order) ==> r.order == Num(0)
  {
    OutModule(m.id, m.title, Or(m.description, Str("")), Or(m.icon, Str("file")), Or(m.order, Num(0)), [])
  }

  /** The output `version`: the TOC's when truthy, `"1.0.0"` otherwise; never falsy. */
  function VersionOf(v: Value): (r: Value)
    ensures Truthy(r)
    ensures Truthy(v) ==> r == v
    ensures !Truthy(v) ==> r == Str("1.0.0")
  {
    Or(v, Str("1.0.0"))
  }

  /** What one pass of the article loop does. */
  datatype Step = Skip | Keep(article: ResolvedArticle) | Fail(cause: GenerateFailure)

  function ArticleStep(a: ArticleRef, moduleId: Value, files: Files): Step {
    if !a.file.Str? then Fail(PathNotString)
    else match Load(files, a.file.s)
      case NotFound => Skip
      case Unreadable(message) => Fail(ReadFailed(message))
      case Loaded(doc) => Keep(Resolve(a, moduleId, doc))
  }

  /** `xs` in front of a successful rest; a failure stays the failure. */
  function Prepend<T>(xs: seq<T>, r: Result<seq<T>>): Result<seq<T>> {
    match r
    case Ok(ys) => Ok(xs + ys)
    case Err(c) => Err(c)
  }

  lemma PrependNothing<T>(r: Result<seq<T>>)
    ensures Prepend([], r) == r
  {
    if r.Ok? {
      assert [] + r.value == r.value;
    }
  }

  lemma PrependTwice<T>(xs: seq<T>, ys: seq<T>, r: Result<seq<T>>)
    ensures Prepend(xs, Prepend(ys, r)) == Prepend(xs + ys, r)
  {
    if r.Ok? {
      assert xs + (ys + r.value) == xs + ys + r.value;
    }
  }

  /** The article loop of one module, in TOC order: the first failure ends it. */
  function ResolveArticles(refs: seq<ArticleRef>, moduleId: Value, files: Files): (r: Result<seq<ResolvedArticle>>)
    ensures r.Err? ==> r.cause != MissingModules
    decreases |refs|
  {
    if refs == [] then Ok([])
    else match ArticleStep(refs[0], moduleId, files)
      case Fail(c) => Err(c)
      case Skip => ResolveArticles(refs[1..], moduleId, files)
      case Keep(r) => Prepend([r], ResolveArticles(refs[1..], moduleId, files))
  }

  /** One module of the output: its shell and the articles of its article list, if it
      has one. */
  function ProcessModule(m: Module, files: Files): (r: Result<OutModule>)
    ensures r.Err? ==> r.cause != MissingModules
  {
    match ResolveArticles(RefsOf(m), m.id, files)
    case Ok(rs) => Ok(ModuleShell(m).(articles := rs))
    case Err(c) => Err(c)
  }

  function ProcessModules(ms: seq<Module>, files: Files): (r: Result<seq<OutModule>>)
    ensures r.Err? ==> r.cause != MissingModules
    ensures r.Ok? ==> |r.value| == |ms|
    decreases |ms|
  {
    if ms == [] then Ok([])
    else match ProcessModule(ms[0], files)
      case Err(c) => Err(c)
      case Ok(om) => Prepend([om], ProcessModules(ms[1..], files))
  }

  /** The number of articles across `oms`. */
  function TotalArticles(oms: seq<OutModule>): nat {
    if oms == [] then 0 else |oms[0].articles| + TotalArticles(oms[1..])
  }

  /** The whole run. */
  function Generate(toc: Toc, files: Files): (r: Generation)
    ensures (r.GenerationFailed? && r.cause == MissingModules) <==> toc.modules.NoModules?
    ensures r.Generated? ==> |r.output.modules| == |toc.modules.items| && Truthy(r.output.version)
  {
    match toc.modules
    case NoModules => GenerationFailed(MissingModules)
    case Modules(ms) =>
      match ProcessModules(ms, files)
      case Err(c) => GenerationFailed(c)
      case Ok(oms) => Generated(Output(VersionOf(toc.version), oms), TotalArticles(oms))
  }

  lemma {:induction false} TotalArticlesAppend(oms: seq<OutModule>, om: OutModule)
    ensures TotalArticles(oms + [om]) == TotalArticles(oms) + |om.articles|
  {
    if oms != [] {
      assert (oms + [om])[1..] == oms[1..] + [om];
      TotalArticlesAppend(oms[1..], om);
    }
  }

  /** The article loop of one module (lines 58-82), pushing resolved articles and
      counting them; it returns the first failure, as the `throw` would. */
  method GenerateArticles(refs: seq<ArticleRef>, moduleId: Value, files: Files, total: nat)
    returns (r: Result<seq<ResolvedArticle>>, total': nat)
    ensures r == ResolveArticles(refs, moduleId, files)
    ensures r.Ok? ==> total' == total + |r.value|
  {
    var articles: seq<ResolvedArticle> := [];
    total' := total;
    var j := 0;
    assert refs[j..] == refs;
    PrependNothing(ResolveArticles(refs, moduleId, files));
    while j < |refs|
      invariant 0 <= j <= |refs|
      invariant ResolveArticles(refs, moduleId, files) == Prepend(articles, ResolveArticles(refs[j..], moduleId, files))
      invariant total' == total + |articles|
    {
      var a := refs[j];
      assert refs[j..][0] == a && refs[j..][1..] == refs[j + 1..];
      if !a.file.Str? {
        return Err(PathNotString), total';
      }
      var loaded := Load(files, a.file.s);
      if loaded.Unreadable? {
        return Err(ReadFailed(loaded.message)), total';
      }
      if loaded.Loaded? {
        var resolved := Resolve(a, moduleId, loaded.doc);
        PrependTwice(articles, [resolved], ResolveArticles(refs[j + 1..], moduleId, files));
        articles := articles + [resolved];
        total' := total' + 1;
      }
      j := j + 1;
    }
    assert articles + [] == articles;
    r := Ok(articles);
  }

  /** `generateHelpCenter`'s module loop (lines 35-100): one output module per TOC
      module, the running article count, and the output object. */
  method GenerateHelpCenter(toc: Toc, files: Files) returns (g: Generation)
    ensures g == Generate(toc, files)
  {
    if toc.modules.NoModules? {
      return GenerationFailed(MissingModules);
    }
    var ms := toc.modules.items;
    var modules: seq<OutModule> := [];
    var total: nat := 0;
    var i := 0;
    assert ms[i..] == ms;
    PrependNothing(ProcessModules(ms, files));
    while i < |ms|
      invariant 0 <= i <= |ms|
      invariant ProcessModules(ms, files) == Prepend(modules, ProcessModules(ms[i..], files))
      invariant total == TotalArticles(modules)
    {
      var m := ms[i];
      assert ms[i..][0] == m && ms[i..][1..] == ms[i + 1..];
      var shell := ModuleShell(m);
      var articles: Result<seq<ResolvedArticle>> := Ok([]);
      var total' := total;
      if m.articles.Listed? {
        articles, total' := GenerateArticles(m.articles.refs, m.id, files, total);
      }
      if articles.Err? {
        return GenerationFailed(articles.cause);
      }
      var om := shell.(articles := articles.value);
      assert ProcessModule(m, files) == Ok(om);
      TotalArticlesAppend(modules, om);
      PrependTwice(modules, [om], ProcessModules(ms[i + 1..], files));
      modules := modules + [om];
      total := total';
      i := i + 1;
    }
    assert modules + [] == modules;
    g := Generated(Output(VersionOf(toc.version), modules), total);
  }
}
