/** The JavaScript values a form field can hold, the `String.prototype.trim`
    the engine applies to strings, and the `===` comparison it relies on. */
module JsValues {

  datatype Option<+T> = None | Some(value: T)

  /** A JSON-like JavaScript value. Numbers are integers here (no NaN, no
      fractions); objects are unordered records. */
  datatype Value =
    | Undefined
    | Null
    | Bool(b: bool)
    | Num(n: int)
    | Str(s: string)
    | Arr(items: seq<Value>)
    | Obj(props: map<string, Value>)

  /** JavaScript truthiness (`!!v`). */
  predicate Truthy(v: Value) {
    match v
    case Undefined => false
    case Null => false
    case Bool(b) => b
    case Num(n) => n != 0
    case Str(s) => s != ""
    case Arr(_) => true
    case Obj(_) => true
  }

  /** `typeof v === 'object' && v !== null` (arrays are objects). */
  predicate IsObject(v: Value) {
    v.Arr? || v.Obj?
  }

  /** The properties `{...v}` copies out of `v`. Only plain objects contribute
      here; the index keys of arrays and strings are not modelled. */
  function SpreadProps(v: Value): map<string, Value> {
    if v.Obj? then v.props else map[]
  }

  /** `a === b` for two field values. `normalizeFormValue` returns a freshly
      filtered array for every array, so an array is never identical to the
      stored value; any other value is identical exactly when it is equal. */
  predicate Identical(a: Value, b: Value) {
    !a.Arr? && !b.Arr? && a == b
  }

  /** The WhiteSpace and LineTerminator code points `trim` removes. */
  predicate IsJsWhitespace(c: char) {
    || c == '\t' || c == '\n' || c == '\U{000B}' || c == '\U{000C}' || c == '\r'
    || c == ' ' || c == '\U{00A0}' || c == '\U{1680}'
    || ('\U{2000}' <= c <= '\U{200A}')
    || c == '\U{2028}' || c == '\U{2029}' || c == '\U{202F}' || c == '\U{205F}'
    || c == '\U{3000}' || c == '\U{FEFF}'
  }

  predicate AllWhitespace(s: string) {
    forall i :: 0 <= i < |s| ==> IsJsWhitespace(s[i])
  }

  /** A string with no leading and no trailing whitespace. */
  predicate IsTrimmed(s: string) {
    s == [] || (!IsJsWhitespace(s[0]) && !IsJsWhitespace(s[|s| - 1]))
  }

  function TrimStart(s: string): (r: string)
    ensures |r| <= |s| && r == s[|s| - |r|..]
    ensures r == [] || !IsJsWhitespace(r[0])
    ensures AllWhitespace(s[..|s| - |r|])
  {
    if |s| > 0 && IsJsWhitespace(s[0]) then TrimStart(s[1..]) else s
  }

  function TrimEnd(s: string): (r: string)
    ensures |r| <= |s| && r == s[..|r|]
    ensures r == [] || !IsJsWhitespace(r[|r| - 1])
    ensures AllWhitespace(s[|r|..])
  {
    if |s| > 0 && IsJsWhitespace(s[|s| - 1]) then
      var r := TrimEnd(s[..|s| - 1]);
      assert s[..|s| - 1][..|r|] == s[..|r|];
      assert s[|r|..] == s[..|s| - 1][|r|..] + [s[|s| - 1]];
      r
    else s
  }

  /** `s.trim()`. */
  function Trim(s: string): (r: string)
    ensures IsTrimmed(r)
  {
    TrimEnd(TrimStart(s))
  }

  /** `trim` removes only surrounding whitespace: the result is a slice of
      the input with whitespace on both sides of it. */
  lemma TrimIsInfix(s: string)
    ensures exists i, j :: 0 <= i <= j <= |s| && Trim(s) == s[i..j]
                           && AllWhitespace(s[..i]) && AllWhitespace(s[j..])
  {
    var t := TrimStart(s);
    var i := |s| - |t|;
    var r := TrimEnd(t);
    var j := i + |r|;
    assert t == s[i..];
    assert r == s[i..j];
    assert s[j..] == t[|r|..];
  }

  /** `s.trim() === ''` holds exactly for strings made of whitespace only. */
  lemma TrimEmptyIff(s: string)
    ensures Trim(s) == "" <==> AllWhitespace(s)
  {
    var t := TrimStart(s);
    assert t != [] ==> t[0] == s[|s| - |t|];
    assert s[..|s|] == s;
  }

  /** Trimming a trimmed string changes nothing. */
  lemma TrimmedFixed(s: string)
    requires IsTrimmed(s)
    ensures Trim(s) == s
  {
  }

  /** `s.trim().trim() === s.trim()`. */
  lemma TrimIdempotent(s: string)
    ensures Trim(Trim(s)) == Trim(s)
  {
    TrimmedFixed(Trim(s));
  }
}
