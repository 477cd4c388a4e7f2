/**
 * The values `JSON.parse` produces, as far as `extractIPs` looks at them.
 * Parsing itself is not modelled: it is a parameter of the extraction.
 */
module Json {
  import opened Wrappers

  /** A parsed JSON value. Numbers are kept as integers; their value never matters here. */
  datatype Json =
    | JNull
    | JBool(b: bool)
    | JNumber(n: int)
    | JString(s: string)
    | JArray(items: seq<Json>)
    | JObject(fields: seq<(string, Json)>)

  /** `JSON.parse` on a text: the value, or `None` where it throws a SyntaxError. */
  type Parser = string -> Option<Json>

  /** No member is named `key`. */
  predicate Absent(fields: seq<(string, Json)>, key: string) {
    forall i :: 0 <= i < |fields| ==> fields[i].0 != key
  }

  /** The member at position `i` is named `key`, holds `v`, and no later member is named `key`. */
  ghost predicate LastAt(fields: seq<(string, Json)>, key: string, v: Json, i: int) {
    0 <= i < |fields| && fields[i] == (key, v) && Absent(fields[i + 1..], key)
  }

  /**
   * The member `key` of an object's member list, as property access sees it
   * after `JSON.parse`: when a key occurs more than once, the last one wins.
   */
  function Get(fields: seq<(string, Json)>, key: string): (r: Option<Json>)
    ensures r.None? <==> Absent(fields, key)
    ensures r.Some? ==> exists i :: LastAt(fields, key, r.value, i)
    decreases |fields|
  {
    if |fields| == 0 then None
    else
      var n := |fields| - 1;
      if fields[n].0 == key then
        assert LastAt(fields, key, fields[n].1, n);
        Some(fields[n].1)
      else
        var r := Get(fields[..n], key);
        GetSkip(fields, key, r);
        r
  }

  /** A last member not named `key` changes nothing about the lookup of `key`. */
  lemma GetSkip(fields: seq<(string, Json)>, key: string, r: Option<Json>)
    requires |fields| > 0 && fields[|fields| - 1].0 != key
    requires var init := fields[..|fields| - 1];
             && (r.None? <==> Absent(init, key))
             && (r.Some? ==> exists i :: LastAt(init, key, r.value, i))
    ensures r.None? <==> Absent(fields, key)
    ensures r.Some? ==> exists i :: LastAt(fields, key, r.value, i)
  {
    var n := |fields| - 1;
    var init := fields[..n];
    assert fields == init + [fields[n]];
    if r.Some? {
      var i :| LastAt(init, key, r.value, i);
      assert fields[i + 1..] == init[i + 1..] + [fields[n]];
      assert LastAt(fields, key, r.value, i);
    }
    if Absent(init, key) {
      forall k | 0 <= k < |fields| ensures fields[k].0 != key {
        if k < n {
          assert fields[k] == init[k];
        }
      }
    }
  }

  /** The last member named `key` is the one the lookup finds. */
  lemma GetIsLastAt(fields: seq<(string, Json)>, key: string)
    ensures forall v, i :: LastAt(fields, key, v, i) ==> Get(fields, key) == Some(v)
  {
    forall v, i | LastAt(fields, key, v, i) ensures Get(fields, key) == Some(v) {
      assert !Absent(fields, key) by { assert fields[i].0 == key; }
      var w := Get(fields, key).value;
      var j :| LastAt(fields, key, w, j);
    }
  }

  /**
   * `jsonData && Array.isArray(jsonData[key])`: the elements of the array
   * under `key`, if the value is an object whose last member of that name
   * holds an array.
   */
  function ArrayField(v: Json, key: string): (r: Option<seq<Json>>)
    ensures r.Some? ==> v.JObject? && exists i :: LastAt(v.fields, key, JArray(r.value), i)
    ensures r.None? ==> !v.JObject? || forall items, i :: !LastAt(v.fields, key, JArray(items), i)
  {
    match v
    case JObject(fields) =>
      GetIsLastAt(fields, key);
      (match Get(fields, key)
       case Some(JArray(items)) => Some(items)
       case _ => None)
    case _ => None
  }

  /** A later member of the same name replaces an earlier one. */
  lemma GetLastWins(fields: seq<(string, Json)>, key: string, a: Json, b: Json)
    ensures Get(fields + [(key, a), (key, b)], key) == Some(b)
  {
  }
}
