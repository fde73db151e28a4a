/** The decoded table of contents (the YAML outline of modules and article references),
    the front-matter documents the article files decode to, and the file system seen
    through one lookup. Both drivers read these and never change them. */
module Outline {
  import opened JsValues

  /** One entry of a module's `articles` list: the TOC's pointer to an article file and
      its default metadata. A key missing from the YAML mapping is `Undefined`. */
  datatype ArticleRef = ArticleRef(id: Value, title: Value, file: Value, order: Value)

  /** A module's `articles` field: a (truthy) array, or anything else, including absent. */
  datatype Articles = Listed(refs: seq<ArticleRef>) | NotAList

  /** One entry of the TOC's `modules` list. */
  datatype Module = Module(id: Value, title: Value, description: Value, icon: Value,
                           order: Value, articles: Articles)

  /** The TOC's `modules` field: present as a list, or absent, falsy, or the TOC itself
      decoded to nothing. */
  datatype ModuleList = Modules(items: seq<Module>) | NoModules

  datatype Toc = Toc(version: Value, modules: ModuleList)

  /** What `gray-matter` makes of an article file: the front-matter mapping (`data`)
      and the text after it (`content`). */
  datatype Document = Document(data: map<string, Value>, content: string)

  /** What looking up an article file yields: `existsSync` is false; or the file exists
      but reading or decoding it throws (a directory, a malformed front-matter block),
      with the thrown message; or the decoded document. */
  datatype LoadResult = NotFound | Unreadable(message: string) | Loaded(doc: Document)

  /** The file system joined with the front-matter decoder, keyed by the `file` string
      of an article reference as it is joined onto the documentation root. */
  type Files = map<string, LoadResult>

  function Load(files: Files, path: string): LoadResult {
    if path in files then files[path] else NotFound
  }

  /** `parsed.data[key]`. */
  function Field(data: map<string, Value>, key: string): Value {
    if key in data then data[key] else Undefined
  }

  /** The article references a module's loops visit: none unless `articles` is a list. */
  function RefsOf(m: Module): seq<ArticleRef> {
    if m.articles.Listed? then m.articles.refs else []
  }

  /** Every article reference the drivers visit, module after module, in TOC order. */
  function AllRefs(ms: seq<Module>): (r: seq<ArticleRef>)
    ensures |ms| == 0 ==> r == []
    ensures forall m, a :: m in ms && a in RefsOf(m) ==> a in r
  {
    if ms == [] then [] else RefsOf(ms[0]) + AllRefs(ms[1..])
  }

  /** The `id` of each module, in order. Modules and article references are separate
      datatypes, so the module ids and the article ids have one projection each. */
  function ModuleIds(ms: seq<Module>): (r: seq<Value>)
    ensures |r| == |ms| && forall i :: 0 <= i < |ms| ==> r[i] == ms[i].id
  {
    if ms == [] then [] else [ms[0].id] + ModuleIds(ms[1..])
  }

  /** The `id` of each article reference, in order. */
  function ArticleIds(refs: seq<ArticleRef>): (r: seq<Value>)
    ensures |r| == |refs| && forall i :: 0 <= i < |refs| ==> r[i] == refs[i].id
  {
    if refs == [] then [] else [refs[0].id] + ArticleIds(refs[1..])
  }

  /** The distinct truthy values among `ids`: what the id `Set`s hold after a run. */
  function TruthyIds(ids: seq<Value>): set<Value> {
    set v | v in ids && Truthy(v)
  }

  /** No two positions of `ids` hold the same value. */
  predicate PairwiseDistinct(ids: seq<Value>) {
    forall i, j :: 0 <= i < j < |ids| ==> ids[i] != ids[j]
  }

  /** `v` is a truthy value that occurs at two positions of `ids`. */
  predicate Repeated(ids: seq<Value>, v: Value) {
    Truthy(v) && exists i, j :: 0 <= i < j < |ids| && ids[i] == v && ids[j] == v
  }
}
