/**
 * Survey entries as the point-data document delivers them: each entry has an
 * ordered list of named properties (JavaScript objects keep insertion order,
 * and that order decides the text that free-text search looks at).
 */
module Features {
  import opened Wrappers
  import opened Text

  /** A property value: a string, a list of strings (such as `Stone_Shape`), or JSON null. */
  datatype Value = Str(s: string) | StrList(items: seq<string>) | Null

  datatype Prop = Prop(name: string, value: Value)

  /**
   * One entry: its `properties` in document order, and `createdAt`, the
   * instant its `created_at` property denotes, taken as already parsed.
   */
  datatype Feature = Feature(properties: seq<Prop>, createdAt: int)

  /** `p[name]`: the value of the first property called `name`, or `undefined`. */
  function Get(props: seq<Prop>, name: string): (r: Option<Value>)
    ensures r.None? <==> forall i :: 0 <= i < |props| ==> props[i].name != name
    ensures r.Some? ==> exists i :: 0 <= i < |props| && props[i] == Prop(name, r.value)
  {
    if props == [] then None
    else if props[0].name == name then Some(props[0].value)
    else
      var r := Get(props[1..], name);
      assert forall i :: 1 <= i < |props| ==> props[i] == props[1..][i - 1];
      r
  }

  /**
   * A canonical array-index name such as "0" or "17": digits only, no
   * leading zero. JavaScript lists such names first, in numeric order,
   * whatever their place in the document. (The upper bound of 2^32 - 2 on
   * array indices is not modelled.)
   */
  predicate IsIndexName(name: string)
  {
    name != [] &&
    (forall i :: 0 <= i < |name| ==> '0' <= name[i] <= '9') &&
    (name[0] == '0' ==> |name| == 1)
  }

  /**
   * The properties as a parsed JSON object can hold them in document order:
   * no name twice, and no array-index name.
   */
  ghost predicate PlainObject(props: seq<Prop>)
  {
    (forall i, j :: 0 <= i < j < |props| ==> props[i].name != props[j].name) &&
    (forall i :: 0 <= i < |props| ==> !IsIndexName(props[i].name))
  }

  /** With distinct names, looking a property up by its name gives its own value. */
  lemma GetOwnValue(props: seq<Prop>, i: nat)
    requires PlainObject(props) && i < |props|
    ensures Get(props, props[i].name) == Some(props[i].value)
  {
    var r := Get(props, props[i].name);
    var j :| 0 <= j < |props| && props[j] == Prop(props[i].name, r.value);
    assert i == j;
  }

  /** The string a value becomes when it is used as an object key. */
  function KeyString(v: Option<Value>): string
  {
    match v
    case None => "undefined"
    case Some(Null) => "null"
    case Some(Str(s)) => s
    case Some(StrList(xs)) => Join(xs, ",")
  }

  /** The key under which an entry's marker is indexed: `properties.entry_id`. */
  function EntryKey(f: Feature): string
  {
    KeyString(Get(f.properties, "entry_id"))
  }

  /** No two entries share an `entry_id`, as the data set is meant to guarantee. */
  ghost predicate UniqueEntryIds(fs: seq<Feature>)
  {
    forall i, j :: 0 <= i < j < |fs| ==> EntryKey(fs[i]) != EntryKey(fs[j])
  }

  /** The strings one value contributes once flattened one level; null joins as "". */
  function ValueStrings(v: Value): seq<string>
  {
    match v
    case Str(s) => [s]
    case StrList(xs) => xs
    case Null => [""]
  }

  /** `Object.values(p).flat()`. */
  function FlatValues(props: seq<Prop>): seq<string>
  {
    if props == [] then [] else ValueStrings(props[0].value) + FlatValues(props[1..])
  }

  /** The text that free-text search looks at: the values joined by spaces, lower-cased. */
  function SearchText(props: seq<Prop>): string
  {
    Lower(Join(FlatValues(props), " "))
  }

  /**
   * Every string a property holds, directly or as an element of a list
   * value, is one of the flattened values.
   */
  lemma {:induction false} FlatValuesHoldPropertyStrings(props: seq<Prop>, i: nat, s: string)
    requires i < |props|
    requires s in ValueStrings(props[i].value)
    ensures s in FlatValues(props)
  {
    if i > 0 {
      FlatValuesHoldPropertyStrings(props[1..], i - 1, s);
    }
  }
}
