/** Template lookup for the mustache renderer: a bare name is looked up next to the
    calling script first, then every name is looked up below `templates`. */
module Template {
  import opened Wrappers
  import opened Store
  import Strs

  const TemplatesRoot: Path := ["templates"]

  datatype TemplateError = Missing(name: string) | ReadFailed(err: StoreError) | ParseFailed(name: string, msg: string)

  /** The error text a script sees; a store error is reported with the engine's text,
      `storeText`. */
  function Message(e: TemplateError, storeText: StoreError -> string): string {
    match e
    case Missing(n) => "could not read template: could not find template " + n
    case ReadFailed(err) => "could not read template: " + storeText(err)
    case ParseFailed(n, msg) => "while parsing " + n + ": " + msg
  }

  /** A name splits into one part exactly when it has no `/`. */
  lemma SplitOne(s: string)
    ensures |Strs.Split(s, '/')| == 1 <==> !Strs.Contains(s, '/')
    ensures !Strs.Contains(s, '/') ==> Strs.Split(s, '/') == [s]
  {
    if Strs.Contains(s, '/') {
      assert Strs.Cut(s, '/').2;
    }
  }

  function Read(st: Node, p: Path): Result<Bytes, TemplateError> {
    match Get(st, p)
    case Ok(d) => Ok(d)
    case Err(e) => Err(ReadFailed(e))
  }

  /** `partialsProvider.Get`. */
  function Partial(st: Node, current: Path, name: string): (r: Result<Bytes, TemplateError>)
    ensures !Strs.Contains(name, '/') && Exists(st, current + [name]) ==> r == Read(st, current + [name])
    ensures Strs.Contains(name, '/') || !Exists(st, current + [name]) ==>
      r == (if Exists(st, TemplatesRoot + Strs.Split(name, '/')) then Read(st, TemplatesRoot + Strs.Split(name, '/'))
            else Err(Missing(name)))
  {
    var parts := Strs.Split(name, '/');
    SplitOne(name);
    if |parts| == 1 && Exists(st, current + parts) then Read(st, current + parts)
    else if Exists(st, TemplatesRoot + parts) then Read(st, TemplatesRoot + parts)
    else Err(Missing(name))
  }

  /** A name with a `/` never looks next to the caller. */
  lemma PartialIgnoresCurrent(st: Node, c1: Path, c2: Path, name: string)
    requires Strs.Contains(name, '/')
    ensures Partial(st, c1, name) == Partial(st, c2, name)
  {
  }

  /** The lookup fails with "not found" exactly when neither place has the name, and a
      value found reads back its bytes. */
  lemma PartialFound(st: Node, current: Path, name: string)
    ensures Partial(st, current, name) == Err(Missing(name)) <==>
      (Strs.Contains(name, '/') || !Exists(st, current + [name])) &&
      !Exists(st, TemplatesRoot + Strs.Split(name, '/'))
    ensures Partial(st, current, name).Ok? ==>
      Lookup(st, current + [name]) == Some(Value(Partial(st, current, name).value)) ||
      Lookup(st, TemplatesRoot + Strs.Split(name, '/')) == Some(Value(Partial(st, current, name).value))
  {
  }

  /** What both render functions hand to the renderer: the template text and the data,
      nil data becoming an empty map. `parseErr` is the template parser's verdict. */
  datatype Prepared = Prepared(text: Bytes, data: map<string, string>)

  function Prepare(st: Node, current: Path, name: string, data: Option<map<string, string>>,
                   parseErr: Bytes -> Option<string>): (r: Result<Prepared, TemplateError>)
    ensures r.Ok? <==> Partial(st, current, name).Ok? && parseErr(Partial(st, current, name).value).None?
    ensures r.Ok? ==> r.value.text == Partial(st, current, name).value
    ensures r.Ok? ==> r.value.data == (if data.Some? then data.value else map[])
    ensures Partial(st, current, name).Ok? && r.Err? ==> r.error == ParseFailed(name, parseErr(Partial(st, current, name).value).value)
  {
    var text :- Partial(st, current, name);
    var d := if data.None? then map[] else data.value;
    match parseErr(text)
    case Some(msg) => Err(ParseFailed(name, msg))
    case None => Ok(Prepared(text, d))
  }
}
