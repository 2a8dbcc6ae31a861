/** What the scripts see of a `*.pw.toml` manifest once `toml.load` has read
    it: a table of keys to values. TOML syntax itself is not modelled; a file
    is either a parsed document or the exception that loading it raised. The
    two Python operations the scripts apply to loaded values, `key in value`
    and `value[key]`, are given their dynamic semantics, errors included. */
module Toml {
  import opened Text

  datatype Option<T> = None | Some(value: T)

  /** The exceptions the scripts can meet while handling one manifest. */
  datatype PyError =
    | TomlDecodeError(detail: string)  // toml.load rejected the text
    | OSError(detail: string)          // the file could not be opened or read
    | TypeError                        // a value was used as the wrong kind of container
    | KeyError(key: string)            // a table lookup of a missing key
    | AttributeError                   // `.replace` on a value that is not a string

  datatype Result<T> = Ok(value: T) | Err(error: PyError)

  /** A loaded TOML value: a string, a table, an array, or one of the
      remaining scalar kinds (integer, float, boolean, date-time), which the
      scripts never look inside. */
  datatype Value =
    | Str(s: string)
    | Table(fields: map<string, Value>)
    | Array(items: seq<Value>)
    | Atom(text: string)

  /** The top level of a manifest, which `toml.load` always returns as a dict. */
  type Doc = map<string, Value>

  /** One manifest file as a pass finds it. */
  datatype ManifestFile = Parsed(doc: Doc) | Unloadable(error: PyError)

  /** Python's `key in v` for a string key: a substring test on a string, a
      key test on a table, an element test on an array, and a TypeError on
      any other value. */
  function In(key: string, v: Value): (r: Result<bool>)
    ensures r.Err? <==> v.Atom?
    ensures v.Table? ==> r == Ok(key in v.fields)
  {
    match v
    case Str(s) => Ok(Contains(s, key))
    case Table(m) => Ok(key in m)
    case Array(xs) => Ok(Str(key) in xs)
    case Atom(_) => Err(TypeError)
  }

  /** Python's `v[key]` for a string key: only a table can be indexed by a
      string; a missing key raises KeyError. */
  function GetItem(v: Value, key: string): (r: Result<Value>)
    ensures r.Ok? <==> v.Table? && key in v.fields
    ensures r.Ok? ==> r.value == v.fields[key]
  {
    match v
    case Table(m) => if key in m then Ok(m[key]) else Err(KeyError(key))
    case _ => Err(TypeError)
  }

  /** Python's `doc.get(key)`. */
  function Get(doc: Doc, key: string): Option<Value> {
    if key in doc then Some(doc[key]) else None
  }
}
