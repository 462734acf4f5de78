/**
 * Decoded JSON as PHP sees it after `json_decode($text, true)`: objects and
 * lists both become ordered arrays. A list's keys are its indexes, written
 * here in decimal, as PHP compares the string key "0" and the integer key 0
 * alike. A float carries the text PHP prints for it.
 */
module PhpJson {
  type PhpArray = seq<(string, Json)>

  datatype Json =
    | JNull
    | JBool(b: bool)
    | JInt(i: int)
    | JFloat(text: string)
    | JString(s: string)
    | JArray(entries: PhpArray)

  /** `$a[$k] ?? null`: the value stored under `k`, or null when there is none. */
  function Get(a: PhpArray, k: string): (v: Json)
    ensures v != JNull ==> exists i :: 0 <= i < |a| && a[i] == (k, v)
    ensures (forall i :: 0 <= i < |a| ==> a[i].0 != k) ==> v == JNull
  {
    if a == [] then JNull
    else if a[0].0 == k then a[0].1
    else Get(a[1..], k)
  }

  /** `$v[$k] ?? null` on any value: a non-array has no entries. */
  function At(v: Json, k: string): Json {
    if v.JArray? then Get(v.entries, k) else JNull
  }

  /** `$v ?? $default`: null counts as missing. */
  function OrDefault(v: Json, default: Json): (r: Json)
    ensures r == (if v == JNull then default else v)
  {
    if v.JNull? then default else v
  }

  /** The values of an array in order, as `foreach ($a as $value)` visits them. */
  function Values(a: PhpArray): (vs: seq<Json>)
    ensures |vs| == |a|
    ensures forall i :: 0 <= i < |a| ==> vs[i] == a[i].1
  {
    seq(|a|, i requires 0 <= i < |a| => a[i].1)
  }

  /** The decimal text of a non-negative integer, as PHP casts it to a string. */
  function NatText(n: nat): (t: string)
    ensures t != []
    ensures forall c :: c in t ==> '0' <= c <= '9'
    decreases n
  {
    var d := ['0' + (n % 10) as char];
    if n < 10 then d else NatText(n / 10) + d
  }

  /** `(string) $i` for an integer. */
  function IntText(i: int): (t: string)
    ensures t != []
  {
    if i < 0 then "-" + NatText(-i) else NatText(i)
  }

  /** A list: `array_values($vs)`. */
  function ListOf(vs: seq<Json>): (v: Json)
    ensures v.JArray? && Values(v.entries) == vs
  {
    JArray(seq(|vs|, i requires 0 <= i < |vs| => (NatText(i), vs[i])))
  }

  /**
   * `(string) $v`. An array becomes the text "Array" (PHP also raises a
   * warning there).
   */
  function Text(v: Json): (t: string)
    ensures v.JString? ==> t == v.s
    ensures v == JNull || v == JBool(false) ==> t == ""
  {
    match v
    case JNull => ""
    case JBool(b) => if b then "1" else ""
    case JInt(i) => IntText(i)
    case JFloat(text) => text
    case JString(s) => s
    case JArray(_) => "Array"
  }

  /** Every key but `k`, in their order: `unset($a[$k])`. */
  function Without(a: PhpArray, k: string): (r: PhpArray)
    ensures forall i :: 0 <= i < |r| ==> r[i].0 != k
    ensures forall e :: e in r <==> e in a && e.0 != k
    ensures |r| <= |a|
  {
    if a == [] then []
    else if a[0].0 == k then Without(a[1..], k)
    else [a[0]] + Without(a[1..], k)
  }

  /** Removing a key leaves every other key's value as it was. */
  lemma {:induction false} WithoutKeepsOthers(a: PhpArray, k: string, other: string)
    requires other != k
    ensures Get(Without(a, k), other) == Get(a, other)
  {
    if a != [] {
      WithoutKeepsOthers(a[1..], k, other);
    }
  }
}
