/**
  YamlConfig: looking up values in a parsed YAML document by a dotted path.

  The document is the map the YAML reader produced; reading and parsing the
  file are not modelled. YAML scalars arrive as strings, sequences as lists
  and mappings as maps. A Java `null` is `None`; the exceptions a lookup can
  raise are `Thrown` results.
 */
module Config {
  import opened JavaLang
  import opened Text

  datatype Value = Scalar(text: string) | List(items: seq<Value>) | Section(entries: map<string, Value>)

  /** A YAML mapping, as `Map<String, Object>`. */
  type Entries = map<string, Value>

  /** `Map.get`: the value under the key, or null. */
  function Lookup(m: Entries, key: string): (r: Option<Value>)
    ensures r.Some? <==> key in m
    ensures r.Some? ==> r.value == m[key]
  {
    if key in m then Some(m[key]) else None
  }

  /** `getMapInMap(key, map)`: `map.get(key)` cast to a map; a null map throws, a non-map value fails the cast. */
  function GetMapInMap(key: string, m: Option<Entries>): (r: Result<Option<Entries>>)
    ensures m.None? ==> r == Thrown(NullPointer)
    ensures m.Some? ==> (r.Ok? <==> Lookup(m.value, key).None? || Lookup(m.value, key).value.Section?)
    ensures m.Some? && r.Thrown? ==> r.ex == ClassCast
    ensures r.Ok? && r.value.Some? ==> m.Some? && Lookup(m.value, key) == Some(Section(r.value.value))
    ensures r.Ok? && r.value.None? ==> m.Some? && key !in m.value
  {
    match m
    case None => Thrown(NullPointer)
    case Some(entries) =>
      if key !in entries then Ok(None)
      else if entries[key].Section? then Ok(Some(entries[key].entries))
      else Thrown(ClassCast)
  }

  /** Every piece of s between dots, empty pieces included. */
  function SplitAll(s: string): (parts: seq<string>)
    ensures |parts| >= 1
    ensures forall k :: 0 <= k < |parts| ==> '.' !in parts[k]
    ensures |parts| == 1 <==> '.' !in s
    decreases |s|
  {
    if s == [] then [""]
    else
      var rest := SplitAll(s[1..]);
      if s[0] == '.' then [""] + rest
      else
        assert '.' !in [s[0]] + rest[0];
        [[s[0]] + rest[0]] + rest[1..]
  }

  /** The pieces without the empty ones at the end. */
  function DropTrailingEmpty(parts: seq<string>): (r: seq<string>)
    ensures r <= parts
    ensures r == [] || r[|r| - 1] != ""
    ensures forall k :: |r| <= k < |parts| ==> parts[k] == ""
  {
    if parts == [] then []
    else if parts[|parts| - 1] == "" then DropTrailingEmpty(parts[..|parts| - 1])
    else parts
  }

  /**
    `s.split(Pattern.quote("."))`: a string with no dot is returned whole;
    otherwise the pieces between dots, with trailing empty pieces removed.
   */
  function JavaSplit(s: string): (parts: seq<string>)
    ensures parts <= SplitAll(s)
    ensures forall k :: |parts| <= k < |SplitAll(s)| ==> SplitAll(s)[k] == ""
    ensures '.' in s ==> parts == [] || parts[|parts| - 1] != ""
    ensures '.' !in s ==> parts == [s]
  {
    if '.' !in s then SplitAllNoDot(s); [s] else DropTrailingEmpty(SplitAll(s))
  }

  /** A string without a dot is one piece. */
  lemma {:induction false} SplitAllNoDot(s: string)
    requires '.' !in s
    ensures SplitAll(s) == [s]
    decreases |s|
  {
    if s != [] {
      assert '.' !in s[1..];
      SplitAllNoDot(s[1..]);
      assert [s[0]] + s[1..] == s;
    }
  }

  /** The pieces joined back with dots. */
  function JoinDots(parts: seq<string>): string
    requires |parts| >= 1
  {
    if |parts| == 1 then parts[0] else parts[0] + "." + JoinDots(parts[1..])
  }

  /** Walk a key path through nested maps and return the value reached. */
  function Descend(m: Option<Entries>, keys: seq<string>): Result<Option<Entries>>
    decreases |keys|
  {
    if keys == [] then Ok(m)
    else match GetMapInMap(keys[0], m)
      case Thrown(e) => Thrown(e)
      case Ok(next) => Descend(next, keys[1..])
  }

  /**
    `get(path)`: a path without a dot is a key of the root map. Otherwise
    every piece but the last selects a nested map and the last is looked up
    in the map reached; a path of dots only splits into nothing and indexing
    its last piece throws.
   */
  function Get(root: Entries, path: string): (r: Result<Option<Value>>)
    ensures '.' !in path ==> r == Ok(Lookup(root, path))
  {
    if '.' !in path then Ok(Lookup(root, path))
    else
      var pieces := JavaSplit(path);
      if |pieces| == 0 then Thrown(IndexOutOfBounds)
      else match Descend(Some(root), pieces[..|pieces| - 1])
        case Thrown(e) => Thrown(e)
        case Ok(None) => Thrown(NullPointer)
        case Ok(Some(m)) => Ok(Lookup(m, pieces[|pieces| - 1]))
  }

  /** `getString(path)`: `get` cast to a string. */
  function GetString(root: Entries, path: string): (r: Result<Option<string>>)
    ensures r.Ok? && r.value.Some? <==> Get(root, path).Ok? && Get(root, path).value.Some? && Get(root, path).value.value.Scalar?
    ensures r.Ok? && r.value.Some? ==> Get(root, path).value.value == Scalar(r.value.value)
    ensures r == Ok(None) <==> Get(root, path) == Ok(None)
    ensures Get(root, path).Ok? && Get(root, path).value.Some? && !Get(root, path).value.value.Scalar? ==>
      r == Thrown(ClassCast)
    ensures Get(root, path).Thrown? ==> r == Thrown(Get(root, path).ex)
  {
    match Get(root, path)
    case Thrown(e) => Thrown(e)
    case Ok(None) => Ok(None)
    case Ok(Some(v)) => if v.Scalar? then Ok(Some(v.text)) else Thrown(ClassCast)
  }

  /** `getBoolean(path)`: `Boolean.parseBoolean` of the string, true only for "true" in any case. */
  function GetBoolean(root: Entries, path: string): (r: Result<bool>)
    ensures r.Ok? <==> GetString(root, path).Ok?
    ensures r == Ok(true) <==>
      GetString(root, path).Ok? && GetString(root, path).value.Some? && EqualsIgnoreCase(GetString(root, path).value.value, "true")
  {
    match GetString(root, path)
    case Thrown(e) => Thrown(e)
    case Ok(s) => Ok(s.Some? && EqualsIgnoreCase(s.value, "true"))
  }

  /** `getInMap(name)`: the nested map under the root key when there is one, else the root map itself. */
  function GetInMap(root: Entries, name: string): (r: Entries)
    ensures name in root && root[name].Section? ==> r == root[name].entries
    ensures !(name in root && root[name].Section?) ==> r == root
  {
    match Lookup(root, name)
    case Some(Section(entries)) => entries
    case _ => root
  }
}
