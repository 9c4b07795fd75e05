/** The text rendering (`Display`) of `Var__`. An object's entries come out in the
    order of its `BTreeMap`, ascending by key; for `String` keys that is
    lexicographic order on characters. */
module VarText {
  import opened Vars

  // ---------------------------------------------------------------- key order

  /** `a` is not after `b`: a prefix of `b`, or smaller at the first difference. */
  predicate StrLe(a: string, b: string)
  {
    |a| == 0 || (|b| > 0 && (a[0] < b[0] || (a[0] == b[0] && StrLe(a[1..], b[1..]))))
  }

  predicate StrLt(a: string, b: string)
  {
    StrLe(a, b) && a != b
  }

  lemma {:induction false} StrLeReflexive(a: string)
    ensures StrLe(a, a)
  {
    if |a| > 0 {
      StrLeReflexive(a[1..]);
    }
  }

  lemma {:induction false} StrLeTotal(a: string, b: string)
    ensures StrLe(a, b) || StrLe(b, a)
  {
    if |a| > 0 && |b| > 0 && a[0] == b[0] {
      StrLeTotal(a[1..], b[1..]);
    }
  }

  lemma {:induction false} StrLeAntisymmetric(a: string, b: string)
    requires StrLe(a, b) && StrLe(b, a)
    ensures a == b
  {
    if |a| > 0 {
      StrLeAntisymmetric(a[1..], b[1..]);
      assert a == [a[0]] + a[1..] && b == [b[0]] + b[1..];
    }
  }

  lemma {:induction false} StrLeTransitive(a: string, b: string, c: string)
    requires StrLe(a, b) && StrLe(b, c)
    ensures StrLe(a, c)
  {
    if |a| > 0 && a[0] == b[0] && b[0] == c[0] {
      StrLeTransitive(a[1..], b[1..], c[1..]);
    }
  }

  /** `m` comes first among the keys `s`. */
  predicate IsLeast(m: string, s: set<string>)
  {
    m in s && forall x | x in s :: StrLe(m, x)
  }

  lemma {:induction false} LeastExists(s: set<string>)
    requires s != {}
    ensures exists m :: IsLeast(m, s)
    decreases s
  {
    var x :| x in s;
    StrLeReflexive(x);
    if s - {x} == {} {
      assert s == {x};
      assert IsLeast(x, s);
    } else {
      LeastExists(s - {x});
      var m :| IsLeast(m, s - {x});
      StrLeTotal(m, x);
      if StrLe(m, x) {
        assert IsLeast(m, s);
      } else {
        forall y | y in s ensures StrLe(x, y) {
          if y != x { StrLeTransitive(x, m, y); }
        }
        assert IsLeast(x, s);
      }
    }
  }

  /** Strictly ascending. */
  predicate Ascending(ks: seq<string>)
  {
    forall i, j | 0 <= i < j < |ks| :: StrLt(ks[i], ks[j])
  }

  /** The keys in the order a `BTreeMap` iterates them. */
  ghost function SortedKeys(s: set<string>): (ks: seq<string>)
    ensures Ascending(ks)
    ensures forall k :: k in ks <==> k in s
    decreases s
  {
    if s == {} then []
    else
      LeastExists(s);
      var m :| IsLeast(m, s);
      var rest := SortedKeys(s - {m});
      assert forall j | 0 <= j < |rest| :: StrLt(m, rest[j]);
      [m] + rest
  }

  /** Two ascending sequences with the same elements are the same sequence: the
      iteration order of a key set is determined by the keys alone. */
  lemma {:induction false} AscendingUnique(a: seq<string>, b: seq<string>)
    requires Ascending(a) && Ascending(b)
    requires forall k :: k in a <==> k in b
    ensures a == b
  {
    BothEmptyOrNeither(a, b);
    if a != [] {
      assert a[0] in b && b[0] in a;
      var i :| 0 <= i < |b| && b[i] == a[0];
      var j :| 0 <= j < |a| && a[j] == b[0];
      if i != 0 {
        assert j != 0 ==> StrLt(a[0], a[j]);
        assert StrLt(b[0], b[i]);
        StrLeAntisymmetric(a[0], b[0]);
      }
      assert a[0] == b[0];
      forall k ensures k in a[1..] ==> k in b[1..] {
        if k in a[1..] {
          TailMember(a, b, k);
        }
      }
      forall k ensures k in b[1..] ==> k in a[1..] {
        if k in b[1..] {
          TailMember(b, a, k);
        }
      }
      AscendingUnique(a[1..], b[1..]);
      assert a == [a[0]] + a[1..] && b == [b[0]] + b[1..];
    }
  }

  lemma BothEmptyOrNeither(a: seq<string>, b: seq<string>)
    requires forall k :: k in a <==> k in b
    ensures a == [] <==> b == []
  {
    if a != [] { assert a[0] in a; }
    if b != [] { assert b[0] in b; }
  }

  /** A key after the first of one ascending sequence is after the first of
      another with the same elements and the same first key. */
  lemma TailMember(a: seq<string>, b: seq<string>, k: string)
    requires Ascending(a) && a != [] && b != [] && a[0] == b[0]
    requires forall x :: x in a <==> x in b
    requires k in a[1..]
    ensures k in b[1..]
  {
    var p :| 1 <= p < |a| && a[p] == k;
    assert StrLt(a[0], a[p]);
    assert k in b;
    var q :| 0 <= q < |b| && b[q] == k;
    assert q != 0;
    assert b[1..][q - 1] == k;
  }

  // ---------------------------------------------------------------- rendering

  /** The `fold` of the source: each part followed by a comma, left to right. */
  function Join(parts: seq<string>): string
  {
    if parts == [] then "" else Join(parts[..|parts| - 1]) + parts[|parts| - 1] + ","
  }

  /** The fold read from the front: the first part and its comma come first. */
  lemma {:induction false} JoinCons(p: string, ps: seq<string>)
    ensures Join([p] + ps) == p + "," + Join(ps)
    decreases |ps|
  {
    if ps != [] {
      var init := ps[..|ps| - 1];
      assert ([p] + ps)[..|[p] + ps| - 1] == [p] + init;
      JoinCons(p, init);
    } else {
      assert ([p] + ps)[..0] == [];
    }
  }

  /** The text of a value. The text of an `f64` is left to the standard library,
      and is the parameter `numText`. */
  ghost function Text(v: Var, numText: real -> string): string
  {
    match v
    case Null => "null"
    case Bool(b) => if b then "true" else "false"
    case Str(s) => "\"" + s + "\""
    case Number(n) => numText(n)
    case Array(xs) =>
      "[" + Join(seq(|xs|, i requires 0 <= i < |xs| => Text(xs[i], numText))) + "]"
    case Object(m) =>
      var ks := SortedKeys(m.Keys);
      "{" + Join(seq(|ks|, i requires 0 <= i < |ks| => ks[i] + ": " + Text(m[ks[i]], numText))) + "}"
  }

  /** An array renders its elements from the first, each followed by a comma:
      `[x, rest...]` is `[` then the text of `x`, a comma and the rest. */
  lemma ArrayTextCons(x: Var, xs: seq<Var>, numText: real -> string)
    ensures Text(Array([x] + xs), numText)
         == "[" + Text(x, numText) + "," + Text(Array(xs), numText)[1..]
  {
    var whole := seq(|[x] + xs|, i requires 0 <= i < |[x] + xs| => Text(([x] + xs)[i], numText));
    var tail := seq(|xs|, i requires 0 <= i < |xs| => Text(xs[i], numText));
    assert whole == [Text(x, numText)] + tail;
    JoinCons(Text(x, numText), tail);
  }

  /** The empty array and the empty object. */
  lemma EmptyTexts(numText: real -> string)
    ensures Text(Array([]), numText) == "[]"
    ensures Text(Object(map[]), numText) == "{}"
  {
    assert SortedKeys({}) == [];
  }

  /** A two-entry object lists its entries by ascending key, whatever the order
      they were inserted in: `{b: null}` then `a: true` renders `{a: true,b: null,}`. */
  lemma ObjectTextInKeyOrder(numText: real -> string)
    ensures Text(Obj(Obj(Null, "b", Null), "a", Bool(true)), numText) == "{a: true,b: null,}"
  {
    var m := map["b" := Null, "a" := Bool(true)];
    assert Obj(Obj(Null, "b", Null), "a", Bool(true)) == Object(m);
    assert StrLt("a", "b");
    AscendingUnique(SortedKeys(m.Keys), ["a", "b"]);
    TwoEntryText(m, "a", "b", numText);
    assert Text(m["a"], numText) == "true" && Text(m["b"], numText) == "null";
    TwoEntryLiteral();
  }

  /** The characters of that rendering. */
  lemma TwoEntryLiteral()
    ensures "{" + ("a" + ": " + "true") + "," + ("b" + ": " + "null") + "," + "}" == "{a: true,b: null,}"
  {
  }

  /** An object whose keys sort as `k1`, `k2` renders both entries in that
      order, each followed by a comma. */
  lemma TwoEntryText(m: map<string, Var>, k1: string, k2: string, numText: real -> string)
    requires SortedKeys(m.Keys) == [k1, k2]
    ensures k1 in m && k2 in m
    ensures Text(Object(m), numText)
         == "{" + (k1 + ": " + Text(m[k1], numText)) + "," + (k2 + ": " + Text(m[k2], numText)) + "," + "}"
  {
    var ks := SortedKeys(m.Keys);
    assert ks[0] == k1 && ks[1] == k2;
    var parts := seq(2, i requires 0 <= i < 2 => ks[i] + ": " + Text(m[ks[i]], numText));
    var p1, p2 := k1 + ": " + Text(m[k1], numText), k2 + ": " + Text(m[k2], numText);
    assert parts == [p1, p2];
    assert parts[..1] == [p1] && parts[..1][..0] == [];
    assert Join(parts[..1]) == p1 + ",";
    assert Join(parts) == p1 + "," + p2 + ",";
  }

  /** Strings are quoted without escaping, so the text does not determine the
      value: the array of the two strings `a` and `b` and the array of the one
      string `a","b` render alike. */
  lemma TextNotInjective(numText: real -> string)
    ensures Array([Str("a"), Str("b")]) != Array([Str("a\",\"b")])
    ensures Text(Array([Str("a"), Str("b")]), numText) == Text(Array([Str("a\",\"b")]), numText)
  {
    assert Str("a") != Str("a\",\"b");
    var two := seq(2, i requires 0 <= i < 2 => Text([Str("a"), Str("b")][i], numText));
    var one := seq(1, i requires 0 <= i < 1 => Text([Str("a\",\"b")][i], numText));
    assert two[0] == "\"" + "a" + "\"" == "\"a\"";
    assert two[1] == "\"" + "b" + "\"" == "\"b\"";
    assert two == ["\"a\"", "\"b\""];
    assert two[..1] == ["\"a\""] && two[..1][..0] == [];
    assert one[0] == "\"" + "a\",\"b" + "\"" == "\"a\",\"b\"";
    assert one == ["\"a\",\"b\""] && one[..0] == [];
    assert Join(two[..1]) == "\"a\"" + ",";
    assert Join(two) == "\"a\"" + "," + "\"b\"" + ",";
    assert Join(one) == "\"a\",\"b\"" + ",";
    assert Join(two) == Join(one);
    assert Text(Array([Str("a"), Str("b")]), numText) == "[" + Join(two) + "]";
    assert Text(Array([Str("a\",\"b")]), numText) == "[" + Join(one) + "]";
  }
}
