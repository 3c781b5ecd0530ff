// `deepEqual` of src/commands/config.ts, which decides whether a configuration write is skipped.
module JsonEquality {
  import opened Prelude

  datatype Json =
    | Null
    | Bool(bool)
    | Num(real)
    | Str(string)
    | Arr(items: seq<Json>)
    | Obj(fields: map<string, Json>)

  // `b[k]` of an object from `JSON.parse`: its own field, or what it inherits. Of the inherited
  // names only `__proto__` gives an object, and that one has no keys of its own.
  function Lookup(fields: map<string, Json>, key: string): Option<Json> {
    if key in fields then Some(fields[key])
    else if key == "__proto__" then Some(Obj(map[]))
    else None
  }

  predicate DeepEqual(a: Json, b: Option<Json>)
    decreases a
  {
    if b.None? then false
    else
      match (a, b.value)
      case (Arr(xs), Arr(ys)) => |xs| == |ys| && forall i | 0 <= i < |xs| :: DeepEqual(xs[i], Some(ys[i]))
      case (Obj(xs), Obj(ys)) => |xs.Keys| == |ys.Keys| && forall key | key in xs :: DeepEqual(xs[key], Lookup(ys, key))
      case (x, y) => x == y
  }

  // Whether somewhere in the tree an object has an own field `__proto__` that is an empty object.
  predicate HasEmptyProto(a: Json)
    decreases a
  {
    match a
    case Arr(items) => exists i | 0 <= i < |items| :: HasEmptyProto(items[i])
    case Obj(fields) =>
      || ("__proto__" in fields && fields["__proto__"] == Obj(map[]))
      || exists key | key in fields :: HasEmptyProto(fields[key])
    case _ => false
  }

  // ----- Equal trees ------------------------------------------------------------------------

  lemma {:induction false} EqualTreesAreDeepEqual(a: Json)
    ensures DeepEqual(a, Some(a))
    decreases a
  {
    match a
    case Arr(items) =>
      forall i | 0 <= i < |items| ensures DeepEqual(items[i], Some(items[i])) {
        EqualTreesAreDeepEqual(items[i]);
      }
    case Obj(fields) =>
      forall key | key in fields ensures DeepEqual(fields[key], Some(fields[key])) {
        EqualTreesAreDeepEqual(fields[key]);
      }
    case _ =>
  }

  // As many keys, and all of them: the same keys.
  lemma SameSizeSubset(left: set<string>, right: set<string>)
    requires left <= right && |left| == |right|
    ensures left == right
  {
    if key :| key in right && key !in left {
      Smaller(left, right - {key});
    }
  }

  lemma {:induction false} Smaller(left: set<string>, right: set<string>)
    requires left <= right
    ensures |left| <= |right|
  {
    if left != {} {
      var key :| key in left;
      Smaller(left - {key}, right - {key});
    }
  }

  // Only an empty object passes for what an object inherits.
  lemma InheritedIsEmpty(a: Json)
    requires DeepEqual(a, Some(Obj(map[])))
    ensures a == Obj(map[])
  {
    match a
    case Obj(fields) =>
      var none: map<string, Json> := map[];
      assert |none.Keys| == 0;
      assert fields.Keys == {};
    case _ =>
  }

  lemma {:induction false} DeepEqualTreesAreEqual(a: Json, b: Json)
    requires DeepEqual(a, Some(b)) && !HasEmptyProto(a)
    ensures a == b
    decreases a
  {
    match (a, b)
    case (Arr(xs), Arr(ys)) =>
      forall i | 0 <= i < |xs| ensures xs[i] == ys[i] {
        DeepEqualTreesAreEqual(xs[i], ys[i]);
      }
      assert xs == ys;
    case (Obj(xs), Obj(ys)) =>
      forall key | key in xs ensures key in ys && xs[key] == ys[key] {
        assert DeepEqual(xs[key], Lookup(ys, key));
        if key in ys {
          DeepEqualTreesAreEqual(xs[key], ys[key]);
        } else {
          InheritedIsEmpty(xs[key]);
        }
      }
      SameSizeSubset(xs.Keys, ys.Keys);
      assert xs == ys;
    case _ =>
  }

  // ----- Trees that pass for others ---------------------------------------------------------

  lemma {:induction false} LongerThanAll(keys: set<string>) returns (longer: string)
    ensures forall key | key in keys :: |key| < |longer|
  {
    if keys == {} {
      longer := "x";
    } else {
      var key :| key in keys;
      longer := LongerThanAll(keys - {key});
      if |key| >= |longer| {
        longer := seq(|key| + 1, _ => 'x');
      }
    }
  }

  // An object like `fields`, with the empty `__proto__` traded for a field of another name.
  lemma Traded(fields: map<string, Json>) returns (b: Json)
    requires "__proto__" in fields && fields["__proto__"] == Obj(map[])
    ensures DeepEqual(Obj(fields), Some(b)) && Obj(fields) != b
  {
    var key := LongerThanAll(fields.Keys);
    var others := fields - {"__proto__"};
    var ys := others[key := Null];
    b := Obj(ys);
    assert ys.Keys == fields.Keys - {"__proto__"} + {key};
    forall k | k in fields ensures DeepEqual(fields[k], Lookup(ys, k)) {
      if k == "__proto__" {
        assert k !in ys;
      } else {
        EqualTreesAreDeepEqual(fields[k]);
      }
    }
  }

  lemma {:induction false} Twin(a: Json) returns (b: Json)
    requires HasEmptyProto(a)
    ensures DeepEqual(a, Some(b)) && a != b
    decreases a
  {
    match a
    case Arr(items) =>
      var i :| 0 <= i < |items| && HasEmptyProto(items[i]);
      var twin := Twin(items[i]);
      b := Arr(items[i := twin]);
      forall j | 0 <= j < |items| ensures DeepEqual(items[j], Some(b.items[j])) {
        EqualTreesAreDeepEqual(items[j]);
      }
      assert b.items[i] != items[i];
    case Obj(fields) =>
      if "__proto__" in fields && fields["__proto__"] == Obj(map[]) {
        b := Traded(fields);
      } else {
        var key :| key in fields && HasEmptyProto(fields[key]);
        var twin := Twin(fields[key]);
        b := TwinField(fields, key, twin);
      }
  }

  lemma TwinField(fields: map<string, Json>, key: string, twin: Json) returns (b: Json)
    requires key in fields && DeepEqual(fields[key], Some(twin)) && fields[key] != twin
    ensures DeepEqual(Obj(fields), Some(b)) && Obj(fields) != b
  {
    var ys := fields[key := twin];
    b := Obj(ys);
    assert ys.Keys == fields.Keys;
    forall k | k in fields ensures DeepEqual(fields[k], Lookup(ys, k)) {
      EqualTreesAreDeepEqual(fields[k]);
    }
    assert ys[key] != fields[key];
  }

  // Deep equality against a value is tree equality exactly for the values without such a field, so
  // for those the write is skipped exactly when it would store the value that is there.
  lemma ComparesTreesExactly(a: Json)
    ensures (forall b: Json :: DeepEqual(a, Some(b)) <==> a == b) <==> !HasEmptyProto(a)
  {
    EqualTreesAreDeepEqual(a);
    if HasEmptyProto(a) {
      var b := Twin(a);
      assert DeepEqual(a, Some(b)) && a != b;
    } else {
      forall b: Json | DeepEqual(a, Some(b)) ensures a == b {
        DeepEqualTreesAreEqual(a, b);
      }
    }
  }

  // `{"__proto__": {}}` passes for `{"x": null}`, but not the other way round.
  lemma EmptyProtoPassesForAnyField()
    ensures var a, b := Obj(map["__proto__" := Obj(map[])]), Obj(map["x" := Null]);
            DeepEqual(a, Some(b)) && !DeepEqual(b, Some(a)) && a != b
  {
    var xs, ys := map["__proto__" := Obj(map[])], map["x" := Null];
    assert xs.Keys == {"__proto__"} && ys.Keys == {"x"};
    assert Lookup(ys, "__proto__") == Some(Obj(map[]));
    EqualTreesAreDeepEqual(Obj(map[]));
    assert Lookup(xs, "x") == None;
    assert "x" in ys && !DeepEqual(ys["x"], Lookup(xs, "x"));
  }
}
