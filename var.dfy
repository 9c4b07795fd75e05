/** `Var__`, the dynamic value of the scripting experiment: its construction, the
    in-place map updates that scripted assignments go through, the casts back to
    Rust values, equality and ordering. */
module Vars {
  import opened Wrappers

  /** A scripted value. `Number` holds an `f64`, modelled as a real. */
  datatype Var =
    | Null
    | Bool(b: bool)
    | Str(s: string)
    | Number(n: real)
    | Object(fields: map<string, Var>)
    | Array(items: seq<Var>)

  /** Which of the six variants a value is. */
  function Tag(v: Var): nat
  {
    match v
    case Null => 0
    case Bool(_) => 1
    case Str(_) => 2
    case Number(_) => 3
    case Object(_) => 4
    case Array(_) => 5
  }

  // ---------------------------------------------------------------- building

  /** `obj__(key, val)`: on an object, `key` is inserted or overwritten; any other
      value is replaced by an object holding only `key`. */
  function Obj(self: Var, key: string, val: Var): (r: Var)
    ensures r.Object? && key in r.fields && r.fields[key] == val
    ensures self.Object? ==> r.fields.Keys == self.fields.Keys + {key}
    ensures self.Object? ==> forall k :: k in self.fields && k != key ==> r.fields[k] == self.fields[k]
    ensures !self.Object? ==> r.fields.Keys == {key}
  {
    match self
    case Object(tree) => Object(tree[key := val])
    case _ => Object(map[key := val])
  }

  /** An object literal `{a: x, b: y}` is built as `Null.obj__("a", x).obj__("b", y)`,
      and gives the object with exactly those entries; of two entries with one key,
      the later wins. */
  lemma ObjectLiteral(a: string, x: Var, b: string, y: Var)
    ensures Obj(Obj(Null, a, x), b, y) == Object(map[a := x, b := y])
    ensures a == b ==> Obj(Obj(Null, a, x), b, y) == Object(map[b := y])
  {
  }

  /** `get_nested__(key)`: on an object, the entry `key` is created as `Null` when
      absent and the object is otherwise unchanged; the caller receives a mutable
      reference to that entry, which here is `r.value.fields[key]`. Any other
      value panics. */
  function GetNested(self: Var, key: string): (r: Result<Var>)
    ensures r.Success? <==> self.Object?
    ensures r.Success? ==> r.value.Object? && r.value.fields.Keys == self.fields.Keys + {key}
    ensures r.Success? ==> forall k :: k in self.fields ==> r.value.fields[k] == self.fields[k]
    ensures r.Success? && key !in self.fields ==> r.value.fields[key] == Null
  {
    match self
    case Object(tree) =>
      if key in tree then Success(self) else Success(Object(tree[key := Null]))
    case _ => Failure("get_nested__ on a value that is not an object")
  }

  /** `update_nested__(val)`: the value behind the reference becomes a copy of `val`. */
  function UpdateNested(self: Var, val: Var): Var
  {
    val
  }

  /** The scripted assignment `x.k1.….kn = val`: `get_nested__` along the keys,
      each returning a reference into the map of the previous value, then
      `update_nested__` on the last reference. Writing through a reference changes
      the entry inside its parent, which this rebuilds outward. */
  function AssignPath(self: Var, path: seq<string>, val: Var): Result<Var>
    decreases |path|
  {
    if path == [] then Success(UpdateNested(self, val))
    else
      match GetNested(self, path[0])
      case Failure(e) => Failure(e)
      case Success(parent) =>
        match AssignPath(parent.fields[path[0]], path[1..], val)
        case Failure(e) => Failure(e)
        case Success(entry) => Success(Object(parent.fields[path[0] := entry]))
  }

  /** The value reached by following `path` through nested objects, if any. */
  function ReadPath(v: Var, path: seq<string>): Option<Var>
    decreases |path|
  {
    if path == [] then Some(v)
    else if v.Object? && path[0] in v.fields then ReadPath(v.fields[path[0]], path[1..])
    else None
  }

  /** Every value an assignment along `path` applies `get_nested__` to is an
      object, and every key but the last is already present. */
  predicate ObjectsAlong(v: Var, path: seq<string>)
    decreases |path|
  {
    path == [] ||
    (v.Object? && (|path| == 1 || (path[0] in v.fields && ObjectsAlong(v.fields[path[0]], path[1..]))))
  }

  /** An assignment succeeds exactly when every value on its way is an object:
      a missing intermediate key becomes `Null`, and the next `get_nested__` on it
      panics. */
  lemma {:induction false} AssignPathSucceedsIff(self: Var, path: seq<string>, val: Var)
    ensures AssignPath(self, path, val).Success? <==> ObjectsAlong(self, path)
    decreases |path|
  {
    if path != [] && self.Object? {
      var parent := GetNested(self, path[0]).value;
      AssignPathSucceedsIff(parent.fields[path[0]], path[1..], val);
      if path[0] !in self.fields && |path| > 1 {
        assert parent.fields[path[0]] == Null;
      }
    }
  }

  /** After an assignment, reading the same path gives the value assigned. */
  lemma {:induction false} AssignThenRead(self: Var, path: seq<string>, val: Var)
    requires AssignPath(self, path, val).Success?
    ensures ReadPath(AssignPath(self, path, val).value, path) == Some(val)
    decreases |path|
  {
    if path != [] {
      var parent := GetNested(self, path[0]).value;
      AssignThenRead(parent.fields[path[0]], path[1..], val);
    }
  }

  /** An assignment through a key leaves every other key of the object as it was
      (and adds none but that key). */
  lemma AssignKeepsSiblings(self: Var, path: seq<string>, val: Var, k: string)
    requires path != [] && AssignPath(self, path, val).Success?
    ensures AssignPath(self, path, val).value.Object?
    ensures AssignPath(self, path, val).value.fields.Keys == self.fields.Keys + {path[0]}
    ensures k in self.fields && k != path[0] ==> AssignPath(self, path, val).value.fields[k] == self.fields[k]
  {
  }

  // ---------------------------------------------------------------- From / Cast

  /** `From<&f64>` and `From<&f32>` (widening an `f32` is exact). */
  function FromNumber(n: real): (r: Var)
    ensures r.Number? && r.n == n
  {
    Number(n)
  }

  /** `From<&i32>` and `From<&i64>` for integers an `f64` holds exactly. */
  function FromInteger(i: int): (r: Var)
    requires -0x20_0000_0000_0000 <= i <= 0x20_0000_0000_0000
    ensures r.Number? && r.n == i as real
  {
    Number(i as real)
  }

  /** `From<&&str>`, `From<&bool>`, `From<Vec<&Var__>>` (a copy of each element) and
      `From<&Var__>` (a copy). */
  function FromStr(s: string): Var { Str(s) }
  function FromBool(b: bool): Var { Bool(b) }
  function FromArray(items: seq<Var>): Var { Array(items) }
  function FromVar(v: Var): Var { v }

  /** `Cast<f64>`: only a number casts; anything else panics. */
  function CastNumber(v: Var): (r: Result<real>)
    ensures r.Success? <==> v.Number?
    ensures r.Success? ==> r.value == v.n
  {
    match v
    case Number(n) => Success(n)
    case _ => Failure("cast of a value that is not a number")
  }

  /** `Cast<bool>`: only a boolean casts. */
  function CastBool(v: Var): (r: Result<bool>)
    ensures r.Success? <==> v.Bool?
    ensures r.Success? ==> r.value == v.b
  {
    match v
    case Bool(b) => Success(b)
    case _ => Failure("cast of a value that is not a boolean")
  }

  /** `Cast<String>`: only a string casts. */
  function CastString(v: Var): (r: Result<string>)
    ensures r.Success? <==> v.Str?
    ensures r.Success? ==> r.value == v.s
  {
    match v
    case Str(s) => Success(s)
    case _ => Failure("cast of a value that is not a string")
  }

  /** `Cast<Var__>`: a copy, which never fails. */
  function CastVar(v: Var): Var { v }

  /** Casting back what was converted in gives the original Rust value. */
  lemma CastAfterFrom(n: real, i: int, s: string, b: bool, v: Var, xs: seq<Var>)
    requires -0x20_0000_0000_0000 <= i <= 0x20_0000_0000_0000
    ensures CastNumber(FromNumber(n)) == Success(n)
    ensures CastNumber(FromInteger(i)) == Success(i as real)
    ensures CastString(FromStr(s)) == Success(s)
    ensures CastBool(FromBool(b)) == Success(b)
    ensures CastVar(FromVar(v)) == v
    ensures FromArray(xs).Array? && FromArray(xs).items == xs
  {
  }

  /** A cast to one Rust type fails on the values the other casts accept: a
      given value passes at most one of the scalar casts. */
  lemma CastsExclusive(v: Var)
    ensures !(CastNumber(v).Success? && CastBool(v).Success?)
    ensures !(CastNumber(v).Success? && CastString(v).Success?)
    ensures !(CastBool(v).Success? && CastString(v).Success?)
    ensures (v.Null? || v.Object? || v.Array?) ==>
      CastNumber(v).Failure? && CastBool(v).Failure? && CastString(v).Failure?
  {
  }

  // ---------------------------------------------------------------- equality

  /** `PartialEq`: variants must match; arrays compare only over the shorter of
      the two lengths; objects need the same keys with equal values (the map
      comparison walks both maps in key order, pairwise). */
  function Eq(a: Var, b: Var): bool
  {
    match (a, b)
    case (Null, Null) => true
    case (Bool(x), Bool(y)) => x == y
    case (Number(x), Number(y)) => x == y
    case (Str(x), Str(y)) => x == y
    case (Array(xs), Array(ys)) =>
      forall i | 0 <= i < |xs| && i < |ys| :: Eq(xs[i], ys[i])
    case (Object(m1), Object(m2)) =>
      m1.Keys == m2.Keys && forall k | k in m1 && k in m2 :: Eq(m1[k], m2[k])
    case _ => false
  }

  /** Values of different variants are never equal. */
  lemma VariantsNeverEqual(a: Var, b: Var)
    requires Tag(a) != Tag(b)
    ensures !Eq(a, b)
  {
  }

  /** Every value equals itself (there is no NaN among the reals). */
  lemma {:induction false} EqReflexive(v: Var)
    ensures Eq(v, v)
  {
    match v
    case Array(xs) =>
      forall i | 0 <= i < |xs| ensures Eq(xs[i], xs[i]) {
        EqReflexive(xs[i]);
      }
    case Object(m) =>
      forall k | k in m ensures Eq(m[k], m[k]) {
        EqReflexive(m[k]);
      }
    case _ =>
  }

  /** Equality is symmetric. */
  lemma {:induction false} EqSymmetric(a: Var, b: Var)
    requires Eq(a, b)
    ensures Eq(b, a)
  {
    match (a, b)
    case (Array(xs), Array(ys)) =>
      forall i | 0 <= i < |ys| && i < |xs| ensures Eq(ys[i], xs[i]) {
        EqSymmetric(xs[i], ys[i]);
      }
    case (Object(m1), Object(m2)) =>
      forall k | k in m2 && k in m1 ensures Eq(m2[k], m1[k]) {
        EqSymmetric(m1[k], m2[k]);
      }
    case _ =>
  }

  /** Objects whose key sets differ are never equal, whatever their values. */
  lemma ObjectKeysMatter(m1: map<string, Var>, m2: map<string, Var>)
    requires m1.Keys != m2.Keys
    ensures !Eq(Object(m1), Object(m2))
  {
  }

  /** The empty array equals every array, in both orders. */
  lemma EmptyArrayEqualsEvery(xs: seq<Var>)
    ensures Eq(Array([]), Array(xs)) && Eq(Array(xs), Array([]))
  {
  }

  /** A longer array equals its prefix: the extra elements are never compared. */
  lemma PrefixEqual(xs: seq<Var>, ys: seq<Var>)
    ensures Eq(Array(xs + ys), Array(xs))
  {
    forall i | 0 <= i < |xs + ys| && i < |xs| ensures Eq((xs + ys)[i], xs[i]) {
      EqReflexive(xs[i]);
    }
  }

  /** Equality is not transitive: `[null] == []` and `[] == [true]`, but
      `[null] != [true]`. */
  lemma EqNotTransitive()
    ensures Eq(Array([Null]), Array([])) && Eq(Array([]), Array([Bool(true)]))
    ensures !Eq(Array([Null]), Array([Bool(true)]))
  {
    assert [Null][0] == Null && [Bool(true)][0] == Bool(true);
  }

  // ---------------------------------------------------------------- ordering

  datatype Ordering = Less | Equal | Greater

  /** `PartialOrd`: `null` is equal to `null`, numbers compare as numbers, and
      every other pair is unordered. */
  function PartialCmp(a: Var, b: Var): (r: Option<Ordering>)
    ensures r.Some? <==> (a.Null? && b.Null?) || (a.Number? && b.Number?)
  {
    match (a, b)
    case (Null, Null) => Some(Equal)
    case (Number(x), Number(y)) =>
      if x < y then Some(Less) else if x == y then Some(Equal) else Some(Greater)
    case _ => None
  }

  /** On numbers the ordering is the numeric one, and reversing the operands
      reverses it. */
  lemma PartialCmpNumbers(x: real, y: real)
    ensures PartialCmp(Number(x), Number(y)) == Some(Less) <==> x < y
    ensures PartialCmp(Number(x), Number(y)) == Some(Equal) <==> x == y
    ensures PartialCmp(Number(x), Number(y)) == Some(Greater) <==> x > y
    ensures PartialCmp(Number(x), Number(y)) == Some(Less) <==> PartialCmp(Number(y), Number(x)) == Some(Greater)
  {
  }

  /** Whenever the ordering says `Equal`, `==` holds too; the converse fails, for
      example for two equal booleans, which are unordered. */
  lemma PartialCmpEqualAgrees(a: Var, b: Var)
    ensures PartialCmp(a, b) == Some(Equal) ==> Eq(a, b)
    ensures Eq(Bool(true), Bool(true)) && PartialCmp(Bool(true), Bool(true)) == None
  {
  }
}
