/**
 * The slice of JavaScript value semantics that the enrollment service and
 * controller rely on: plain objects as records, truthiness, property access,
 * the `in` operator, object spread, `exclude` (a copy of a record without
 * some keys) and `String.prototype.trim`.
 *
 * Numbers are modelled as unbounded integers (status codes, ids, clock
 * ticks); functions, symbols, prototypes and NaN do not occur.
 */
module Js {

  datatype Value =
    | Undefined
    | Null
    | Bool(b: bool)
    | Num(n: int)
    | Str(s: string)
    | Arr(items: seq<Value>)
    | Obj(fields: map<string, Value>)

  /** A plain object's own enumerable properties. */
  type Record = map<string, Value>

  /** `!!v`: false exactly for undefined, null, false, 0 and "". */
  predicate Truthy(v: Value)
  {
    match v
    case Undefined => false
    case Null => false
    case Bool(b) => b
    case Num(n) => n != 0
    case Str(s) => s != ""
    case Arr(_) => true
    case Obj(_) => true
  }

  /** Outcome of an expression that may throw a TypeError. */
  datatype Eval<T> = Done(value: T) | Throws

  /**
   * `v.key`: reading a property of undefined or null throws; a missing key,
   * or a key read off a primitive or an array, gives undefined.
   */
  function Prop(v: Value, key: string): (r: Eval<Value>)
    ensures r.Throws? <==> v == Undefined || v == Null
    ensures r.Done? ==> r.value == Get(v, key)
  {
    if v == Undefined || v == Null then Throws else Done(Get(v, key))
  }

  /** What `v.key` (or `v?.key`) reads when it does not throw. */
  function Get(v: Value, key: string): (r: Value)
    ensures v.Obj? && key in v.fields ==> r == v.fields[key]
    ensures !(v.Obj? && key in v.fields) ==> r == Undefined
  {
    if v.Obj? && key in v.fields then v.fields[key] else Undefined
  }

  /** `key in v`: defined on objects and arrays only, a TypeError on primitives. */
  function HasKey(v: Value, key: string): (r: Eval<bool>)
    ensures r.Throws? <==> !(v.Obj? || v.Arr?)
    ensures r.Done? ==> (r.value <==> v.Obj? && key in v.fields)
  {
    match v
    case Obj(fields) => Done(key in fields)
    // an array's own keys are its indices and "length"; no key read here is one of them
    case Arr(_) => Done(false)
    case _ => Throws
  }

  /** The own properties `{...v}` contributes: none for anything but an object. */
  function Spread(v: Value): (r: Record)
    ensures v.Obj? ==> r == v.fields
    ensures !v.Obj? ==> r == map[]
  {
    if v.Obj? then v.fields else map[]
  }

  /** `const [first] = v` on an array; undefined when it is empty. */
  function First(v: Value): (r: Value)
    ensures v.Arr? && |v.items| > 0 ==> r == v.items[0]
    ensures !(v.Arr? && |v.items| > 0) ==> r == Undefined
  {
    if v.Arr? && |v.items| > 0 then v.items[0] else Undefined
  }

  /** `exclude(record, ...keys)`: a copy of the record without the named keys. */
  function Exclude(r: Record, keys: set<string>): (e: Record)
    ensures e.Keys == r.Keys - keys
    ensures forall k :: k in e ==> e[k] == r[k]
  {
    r - keys
  }

  /**
   * The characters `String.prototype.trim` removes: WhiteSpace (tab, vertical
   * tab, form feed, space, no-break space, the byte-order mark and the Unicode
   * space separators) and LineTerminator (line feed, carriage return, line
   * and paragraph separators).
   */
  predicate IsTrimmable(c: char)
  {
    var n := c as int;
    n == 0x09 || n == 0x0A || n == 0x0B || n == 0x0C || n == 0x0D || n == 0x20
    || n == 0xA0 || n == 0x1680 || (0x2000 <= n <= 0x200A)
    || n == 0x2028 || n == 0x2029 || n == 0x202F || n == 0x205F
    || n == 0x3000 || n == 0xFEFF
  }

  predicate Blank(s: string)
  {
    forall i :: 0 <= i < |s| ==> IsTrimmable(s[i])
  }

  function TrimStart(s: string): (t: string)
    ensures |t| <= |s| && t == s[|s| - |t|..]
    ensures t != [] ==> !IsTrimmable(t[0])
  {
    if s != [] && IsTrimmable(s[0]) then TrimStart(s[1..]) else s
  }

  function TrimEnd(s: string): (t: string)
    ensures |t| <= |s| && t == s[..|t|]
    ensures t != [] ==> !IsTrimmable(t[|t| - 1])
  {
    if s != [] && IsTrimmable(s[|s| - 1]) then TrimEnd(s[..|s| - 1]) else s
  }

  /** `s.trim()` */
  function Trim(s: string): string
  {
    TrimEnd(TrimStart(s))
  }

  lemma {:induction false} TrimStartDropsOnlyBlanks(s: string)
    ensures Blank(s[..|s| - |TrimStart(s)|])
  {
    if s != [] && IsTrimmable(s[0]) {
      TrimStartDropsOnlyBlanks(s[1..]);
      var d := |s| - |TrimStart(s)|;
      assert s[..d] == [s[0]] + s[1..][..d - 1];
    }
  }

  lemma {:induction false} TrimEndEmptyIffBlank(s: string)
    ensures TrimEnd(s) == [] <==> Blank(s)
  {
    if s != [] && IsTrimmable(s[|s| - 1]) {
      TrimEndEmptyIffBlank(s[..|s| - 1]);
      assert s == s[..|s| - 1] + [s[|s| - 1]];
    }
  }

  /** `s.trim() === ''` exactly when every character of `s` is white space. */
  lemma TrimEmptyIffBlank(s: string)
    ensures Trim(s) == [] <==> Blank(s)
  {
    var t := TrimStart(s);
    var d := |s| - |t|;
    TrimStartDropsOnlyBlanks(s);
    TrimEndEmptyIffBlank(t);
    if !Blank(s) {
      var i :| 0 <= i < |s| && !IsTrimmable(s[i]);
      forall j | 0 <= j < d ensures IsTrimmable(s[j]) {
        assert s[..d][j] == s[j];
      }
      assert d <= i;
      assert t[i - d] == s[i];
    }
  }
}
