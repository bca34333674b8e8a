/** JSON values as Python reads them: truth, equality, `dict.get` and `str`. */
module Json {
  import opened Text
  import opened Decimals

  datatype Json =
    | Null
    | Bool(b: bool)
    | Int(n: int)
    | Float(x: real)
    | Str(s: string)
    | Arr(items: seq<Json>)
    | Obj(fields: map<string, Json>)

  /** The library functions the code calls: `repr` of floats, lists and objects, and `json.loads` (None is
      ValueError). */
  datatype Runtime = Runtime(repr: Json -> string, loads: string -> Option<Json>)

  const EMPTY := Obj(map[])

  predicate Truthy(v: Json) {
    match v
    case Null => false
    case Bool(b) => b
    case Int(n) => n != 0
    case Float(x) => x != 0.0
    case Str(s) => s != ""
    case Arr(items) => items != []
    case Obj(fields) => fields != map[]
  }

  /** `a or b` */
  function Or(a: Json, b: Json): Json {
    if Truthy(a) then a else b
  }

  /** `d.get(key)` */
  function Get(d: Json, key: string): Json
    requires d.Obj?
  {
    if key in d.fields then d.fields[key] else Null
  }

  /** `d` after `d[key] = v` */
  function Put(d: Json, key: string, v: Json): (r: Json)
    requires d.Obj?
    ensures r.Obj? && Get(r, key) == v
    ensures forall other | other != key :: Get(r, other) == Get(d, other)
  {
    Obj(d.fields[key := v])
  }

  /** `d[key]`; a missing key would be KeyError */
  function Item(d: Json, key: string): Json
    requires d.Obj? && key in d.fields
  {
    d.fields[key]
  }

  /** `int(x)` of a float */
  function Truncate(x: real): int {
    if x >= 0.0 then x.Floor else -(-x).Floor
  }

  predicate IsNumber(v: Json) {
    v.Bool? || v.Int? || v.Float?
  }

  function Number(v: Json): real
    requires IsNumber(v)
  {
    match v
    case Bool(b) => if b then 1.0 else 0.0
    case Int(n) => n as real
    case Float(x) => x
  }

  /** `a == b`: True equals 1 and 1.0, inside containers too. */
  predicate PyEq(a: Json, b: Json)
    decreases a
  {
    if IsNumber(a) && IsNumber(b) then Number(a) == Number(b)
    else match (a, b)
      case (Arr(x), Arr(y)) => |x| == |y| && forall i | 0 <= i < |x| :: PyEq(x[i], y[i])
      case (Obj(x), Obj(y)) => x.Keys == y.Keys && forall key | key in x.Keys :: PyEq(x[key], y[key])
      case _ => a == b
  }

  /** `str(v)` */
  function PyStr(py: Runtime, v: Json): string {
    match v
    case Null => "None"
    case Bool(b) => if b then "True" else "False"
    case Int(n) => IntText(n)
    case Str(s) => s
    case _ => py.repr(v)
  }

  /** `str(v or "")` */
  function TextOr(py: Runtime, v: Json): string {
    PyStr(py, Or(v, Str("")))
  }

  /** `bool(str(v or "").strip())`; the text of a true value that is not a string is never blank. */
  predicate NonBlank(v: Json) {
    Truthy(v) && (v.Str? ==> Strip(v.s) != "")
  }

  lemma EqualToString(v: Json, s: string)
    ensures PyEq(v, Str(s)) <==> v == Str(s)
    ensures PyEq(Str(s), v) <==> v == Str(s)
  {
  }

  /** The false values, one by one. */
  lemma FalsyExact(v: Json)
    ensures !Truthy(v) <==> v in {Null, Bool(false), Int(0), Float(0.0), Str(""), Arr([]), Obj(map[])}
  {
  }

  /** Numbers are equal by value, across their kinds; values of different kinds otherwise never are. */
  lemma EqualityExact(a: Json, b: Json)
    ensures a.Int? && b.Bool? ==> (PyEq(a, b) <==> a.n == if b.b then 1 else 0)
    ensures a.Int? && b.Float? ==> (PyEq(a, b) <==> a.n as real == b.x)
    ensures a.Int? && b.Int? ==> (PyEq(a, b) <==> a == b)
    ensures a.Null? || a.Str? ==> (PyEq(a, b) <==> a == b)
    ensures (a.Arr? && !b.Arr?) || (a.Obj? && !b.Obj?) ==> !PyEq(a, b)
  {
  }

  /** Equality is an equivalence. */
  lemma {:induction false} EqualityReflects(a: Json)
    ensures PyEq(a, a)
  {
    match a
    case Arr(x) =>
      forall i | 0 <= i < |x| ensures PyEq(x[i], x[i]) {
        EqualityReflects(x[i]);
      }
    case Obj(x) =>
      forall key | key in x.Keys ensures PyEq(x[key], x[key]) {
        EqualityReflects(x[key]);
      }
    case _ =>
  }

  lemma {:induction false} EqualityChains(a: Json, b: Json, c: Json)
    requires PyEq(a, b) && PyEq(b, c)
    ensures PyEq(b, a) && PyEq(a, c)
    decreases a
  {
    match (a, b, c)
    case (Arr(x), Arr(y), Arr(z)) =>
      forall i | 0 <= i < |x| ensures PyEq(y[i], x[i]) && PyEq(x[i], z[i]) {
        EqualityChains(x[i], y[i], z[i]);
      }
    case (Obj(x), Obj(y), Obj(z)) =>
      forall key | key in x.Keys ensures PyEq(y[key], x[key]) && PyEq(x[key], z[key]) {
        EqualityChains(x[key], y[key], z[key]);
      }
    case _ =>
  }

  /** `str` of the values that need no library. */
  lemma TextExact(py: Runtime, n: nat)
    ensures PyStr(py, Null) == "None" && PyStr(py, Bool(true)) == "True" && PyStr(py, Bool(false)) == "False"
    ensures PyStr(py, Int(n)) == NatText(n) && PyStr(py, Int(-(n + 1))) == "-" + NatText(n + 1)
    ensures TextOr(py, Null) == TextOr(py, Int(0)) == TextOr(py, Bool(false)) == TextOr(py, Str("")) == ""
  {
  }

  /** The text of the first true value, if any. */
  function FirstText(py: Runtime, vs: seq<Json>): string {
    if vs == [] then "" else if Truthy(vs[0]) then PyStr(py, vs[0]) else FirstText(py, vs[1..])
  }

  lemma OrIsFirst(py: Runtime, a: Json, b: Json, c: Json, d: Json)
    ensures TextOr(py, Or(a, b)) == FirstText(py, [a, b])
    ensures TextOr(py, Or(a, Or(b, c))) == FirstText(py, [a, b, c])
    ensures TextOr(py, Or(Or(a, b), Or(c, d))) == FirstText(py, [a, b, c, d])
  {
    hide PyStr, Truthy;
    FirstOf(py, a, []);
    FirstOf(py, b, []);
    FirstOf(py, c, []);
    FirstOf(py, d, []);
    FirstOf(py, c, [d]);
    FirstOf(py, b, [c]);
    FirstOf(py, b, [c, d]);
    FirstOf(py, a, [b]);
    FirstOf(py, a, [b, c]);
    FirstOf(py, a, [b, c, d]);
    EmptyIsFalse();
  }

  lemma FirstOf(py: Runtime, v: Json, rest: seq<Json>)
    ensures FirstText(py, [v] + rest) == if Truthy(v) then PyStr(py, v) else FirstText(py, rest)
  {
    assert ([v] + rest)[1..] == rest;
  }

  lemma EmptyIsFalse()
    ensures forall py :: PyStr(py, Str("")) == ""
  {
  }

  /** A value is not blank if it is a string with something other than blanks in it, or a true value of another kind. */
  lemma NonBlankExact(v: Json)
    ensures NonBlank(v) <==> if v.Str? then !AllSpace(v.s) else Truthy(v)
  {
    if v.Str? {
      BlankExact(v.s);
    }
  }

  lemma BlankExact(s: string)
    ensures Strip(s) == "" <==> AllSpace(s)
    ensures s == "" ==> AllSpace(s)
  {
    hide Strip;
    var before, after := StripSplits(s);
    if AllSpace(s) {
      StripExact(s, "", "");
      assert s + "" + "" == s;
    }
    if Strip(s) == "" {
      assert s == before + after;
    }
  }
}
