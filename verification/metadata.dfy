/** Front-matter values and the foreign libraries that produce and consume
    them. YAML and Markdown are not modelled: the generator reaches them
    through the functions of a `Codecs` value. */
module Meta {
  import opened Common
  import opened Dates

  /** The values YAML front matter can hold, as far as the generator looks at
      them. YAML dates and timestamps both become `VDate`. */
  datatype Value =
    | VNull
    | VBool(b: bool)
    | VInt(i: int)
    | VStr(s: string)
    | VDate(t: DateTime)
    | VList(items: seq<Value>)
    | VMap(entries: map<string, Value>)

  /** Python's truth value of a loaded value. */
  predicate Truthy(v: Value) {
    match v
    case VNull => false
    case VBool(b) => b
    case VInt(i) => i != 0
    case VStr(s) => s != []
    case VDate(_) => true
    case VList(items) => items != []
    case VMap(m) => m != map[]
  }

  /** A post's metadata dictionary. */
  type Metadata = map<string, Value>

  /** `yaml.safe_load(...) or {}` used as a dictionary: a falsy value becomes
      the empty mapping, a mapping is used as it is, and any other value makes
      the first `in` test or item assignment raise `TypeError`. */
  function AsMetadata(v: Value): (r: Option<Metadata>)
    ensures r.Some? <==> !Truthy(v) || v.VMap?
    ensures !Truthy(v) ==> r == Some(map[])
    ensures Truthy(v) && v.VMap? ==> r == Some(v.entries)
  {
    if !Truthy(v) then Some(map[])
    else if v.VMap? then Some(v.entries)
    else None
  }

  /** What `yaml.safe_load` does with a text: it yields a value, or raises a
      `ValueError` (an impossible date such as 2024-13-45), or raises any
      other error (a syntax error). */
  datatype YamlOutcome = Loaded(value: Value) | RaisedValueError | RaisedOther

  /** The foreign libraries: `yaml.safe_load`, `yaml.dump` of a dictionary,
      and Markdown-to-HTML conversion. */
  datatype Codecs = Codecs(
    yamlLoad: string -> YamlOutcome,
    yamlDump: Metadata -> string,
    markdown: string -> string)
}
