/**
  PHP values as `json_decode($body, true)` produces them, and the PHP operations
  the providers and the serializer apply to them: offset reads under `??` and
  `isset`, truthiness and `empty()`, and `foreach` over an array.

  A JSON object decodes to an ordered string-keyed array, modelled as its list of
  entries in document order; a JSON list decodes to a list. JSON floats are not
  modelled.
*/
module PhpValues {
  import opened Wrappers
  import opened PhpStrings

  datatype Json =
    | JNull
    | JBool(b: bool)
    | JInt(i: int)
    | JStr(s: string)
    | JList(items: seq<Json>)
    | JObj(entries: seq<(string, Json)>)

  /** The value stored under `name` in an entry list; JNull when there is none. */
  function EntryValue(entries: seq<(string, Json)>, name: string): Json {
    if entries == [] then JNull
    else if entries[0].0 == name then entries[0].1
    else EntryValue(entries[1..], name)
  }

  /** The first entry under `name` decides the lookup. */
  lemma {:induction false} EntryValueAt(entries: seq<(string, Json)>, name: string, j: nat)
    requires j < |entries| && entries[j].0 == name
    requires forall i :: 0 <= i < j ==> entries[i].0 != name
    ensures EntryValue(entries, name) == entries[j].1
    decreases j
  {
    if j > 0 {
      EntryValueAt(entries[1..], name, j - 1);
    }
  }

  /** No key occurs twice in an entry list. */
  predicate KeysDistinct(entries: seq<(string, Json)>) {
    forall i, j :: 0 <= i < j < |entries| ==> entries[i].0 != entries[j].0
  }

  /** With distinct keys every entry is found under its own key. */
  lemma LookupDistinct(entries: seq<(string, Json)>, j: nat)
    requires KeysDistinct(entries) && j < |entries|
    ensures EntryValue(entries, entries[j].0) == entries[j].1
  {
    EntryValueAt(entries, entries[j].0, j);
  }

  /** A key that no entry has is missing. */
  lemma {:induction false} LookupMissing(entries: seq<(string, Json)>, name: string)
    requires forall i :: 0 <= i < |entries| ==> entries[i].0 != name
    ensures EntryValue(entries, name) == JNull
  {
    if entries != [] {
      LookupMissing(entries[1..], name);
    }
  }

  /**
    `$v['name']`, read under `??` or `isset`: JNull stands for both "missing"
    and "null", which `??` does not tell apart. Only arrays have named offsets.
  */
  function Field(v: Json, name: string): Json {
    match v
    case JObj(entries) => EntryValue(entries, name)
    case _ => JNull
  }

  /**
    `$v[n]`, read under `??` or `isset`. A list yields its n-th item, a
    string-keyed array the entry whose key is the numeral of n (PHP stores
    numeric keys as integers), and a string a one-character string (counting
    from the end for a negative offset).
  */
  function At(v: Json, n: int): Json {
    match v
    case JList(items) => if 0 <= n < |items| then items[n] else JNull
    case JObj(entries) => EntryValue(entries, Decimal(n))
    case JStr(s) =>
      if 0 <= n < |s| then JStr([s[n]])
      else if -|s| <= n < 0 then JStr([s[|s| + n]])
      else JNull
    case _ => JNull
  }

  /** `$v ?? $default`. */
  function Or(v: Json, default: Json): (r: Json)
    ensures r.JNull? <==> v.JNull? && default.JNull?
    ensures !v.JNull? ==> r == v
  {
    if v.JNull? then default else v
  }

  /** A PHP array: what `json_decode($s, true)` makes of a JSON list or object. */
  predicate IsArray(v: Json) {
    v.JList? || v.JObj?
  }

  /** PHP's conversion to bool: null, false, 0, "", "0" and the empty array are false. */
  predicate Truthy(v: Json) {
    match v
    case JNull => false
    case JBool(b) => b
    case JInt(i) => i != 0
    case JStr(s) => s != "" && s != "0"
    case JList(items) => items != []
    case JObj(entries) => entries != []
  }

  /** `empty($s)` for a string. */
  predicate IsEmptyString(s: string) {
    s == "" || s == "0"
  }

  /** The values `foreach ($v as $x)` visits, in order; a non-array is not iterated. */
  function Values(v: Json): (r: seq<Json>)
    ensures v.JList? ==> r == v.items
    ensures v.JObj? ==> |r| == |v.entries| && forall i :: 0 <= i < |r| ==> r[i] == v.entries[i].1
    ensures !v.JList? && !v.JObj? ==> r == []
  {
    match v
    case JList(items) => items
    case JObj(entries) => seq(|entries|, i requires 0 <= i < |entries| => entries[i].1)
    case _ => []
  }

  /**
    A value handed to a `?string` parameter or property. Any other type raises a
    TypeError under strict_types; the model reads it as null.
  */
  function AsNullableString(v: Json): (r: Option<string>)
    ensures r.Some? <==> v.JStr?
    ensures v.JStr? ==> r.value == v.s
  {
    if v.JStr? then Some(v.s) else None
  }

  /** A value handed to a `?int` property, read as null when it is not an integer. */
  function AsNullableInt(v: Json): (r: Option<int>)
    ensures r.Some? <==> v.JInt?
    ensures v.JInt? ==> r.value == v.i
  {
    if v.JInt? then Some(v.i) else None
  }

  /** A value handed to a `string` parameter, read as "" when it is not a string. */
  function AsString(v: Json): string {
    if v.JStr? then v.s else ""
  }

  /** The PHP value of a nullable string. */
  function FromNullableString(s: Option<string>): Json {
    if s.Some? then JStr(s.value) else JNull
  }

  /** The PHP value of a nullable integer. */
  function FromNullableInt(n: Option<int>): Json {
    if n.Some? then JInt(n.value) else JNull
  }

  /** Reading back a nullable value gives the value. */
  lemma NullableRoundTrip(s: Option<string>, n: Option<int>)
    ensures AsNullableString(FromNullableString(s)) == s
    ensures AsNullableInt(FromNullableInt(n)) == n
  {
  }

  /** Truthiness of a nullable string, as `if ($s)` sees it. */
  predicate TruthyString(s: Option<string>) {
    s.Some? && !IsEmptyString(s.value)
  }
}
