/** The default export: accept a directory path or a module-like object
    carrying a `url`, and aggregate the routes of that directory. */
module Entry {
  import opened JsValue
  import opened PlainObject
  import opened Aggregator

  /** `typeof mod === 'string' ? mod : dirname(fileURLToPath(mod.url))`.
      `parentDir` stands for `dirname(fileURLToPath(_))`, which rejects any
      value that is not a file URL. Reading `url` of null or undefined
      throws before either is reached. */
  function Directory(mod: Value, parentDir: Value -> Result<string>): (r: Result<string>)
    ensures mod.Str? ==> r == Ok(mod.s)
    ensures mod == Undefined || mod == Null ==> r.Err? && r.error.TypeError?
    ensures mod.Obj? ==> r == parentDir(Get(mod, "url"))
    ensures !mod.Str? && !mod.Obj? && mod != Undefined && mod != Null ==> r == parentDir(Undefined)
  {
    match mod
    case Str(s) => Ok(s)
    case Undefined => Err(TypeError("cannot read property 'url' of undefined"))
    case Null => Err(TypeError("cannot read property 'url' of null"))
    case _ => parentDir(Get(mod, "url"))
  }

  /** The exported `async function(mod)`: `readdir(d)` is what listing
      directory `d` settles with and `importIn(d)(f)` what importing file
      `f` of `d` settles with. An input that yields no directory rejects
      before the file system is touched. */
  method Load(mod: Value, parentDir: Value -> Result<string>,
              readdir: string -> Result<seq<string>>,
              importIn: string -> string -> Result<Value>)
    returns (r: Result<Dict>)
    ensures Directory(mod, parentDir).Err? ==> r == Err(Directory(mod, parentDir).error)
    ensures Directory(mod, parentDir).Ok? ==>
      var directory := Directory(mod, parentDir).value;
      r == Aggregate(readdir(directory), importIn(directory))
  {
    var directory := Directory(mod, parentDir);
    if directory.Err? {
      return Err(directory.error);
    }
    r := RequireDirectory(readdir(directory.value), importIn(directory.value));
  }
}
