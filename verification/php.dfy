/**
 * The PHP values that the favicon manager stores in its memo fields and in
 * the cache backend, PHP's truthiness of configuration values, and what a
 * method with a declared return type does with the value it returns.
 */
module Php {

  datatype Option<+T> = None | Some(value: T)

  /**
   * One entry of the image inventory: `['width' => $size[0], 'height' => $size[1]]`.
   * A component is None (PHP null) when getimagesize() failed: it then
   * returns false, and indexing false yields null.
   */
  datatype ImageEntry = ImageEntry(width: Option<int>, height: Option<int>)

  /**
   * What a memo field or a cache entry can hold: null (also "unset"), a
   * string, or an array keyed by URI. The empty array `[]` is `Array(map[])`.
   */
  datatype Value = Null | Text(s: string) | Array(entries: map<string, ImageEntry>)

  const EMPTY_ARRAY: Value := Array(map[])

  /** `isset($v)`: every value except null. */
  predicate IsSet(v: Value) {
    !v.Null?
  }

  /**
   * The outcome of `return $v;` in a method whose declared return type is
   * `string` or `array`: the value itself, or a TypeError carrying the value
   * of the wrong type (PHP never coerces an array or null to these types),
   * or an exception a collaborator threw before the method returned.
   */
  datatype Returned<+T> = Ok(value: T) | TypeError(got: Value) | Thrown(exception: string)

  /** `return $v;` from a method declared `: string`. */
  function ReturnString(v: Value): (r: Returned<string>) {
    if v.Text? then Ok(v.s) else TypeError(v)
  }

  /** `return $v;` from a method declared `: array`. */
  function ReturnArray(v: Value): (r: Returned<map<string, ImageEntry>>) {
    if v.Array? then Ok(v.entries) else TypeError(v)
  }

  /**
   * A configuration value as read back from the configuration store: absent
   * (null), a string, an integer, or a list of file IDs (what a managed-file
   * form element saves).
   */
  datatype ConfigValue = Missing | Str(s: string) | Int(i: int) | IdList(ids: seq<int>)

  /** PHP truthiness of a string: "" and "0" are false, everything else true. */
  predicate StringTruthy(s: string) {
    s != "" && s != "0"
  }

  /** PHP truthiness of a configuration value. */
  predicate Truthy(c: ConfigValue) {
    match c
    case Missing => false
    case Str(s) => StringTruthy(s)
    case Int(i) => i != 0
    case IdList(ids) => ids != []
  }
}
