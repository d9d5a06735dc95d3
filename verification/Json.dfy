/**
 JSON values and the matchers the flow engine applies to them
 (crates/flow/src/triggers.rs). An object is a finite map; a payload text that
 fails to parse reads as null, so only the parsed value is modelled.
 */
module Json {
  import opened Common

  type Fields = map<string, Value>

  /** Integers and floating-point numbers are different values, even where they are equal: 1 is not 1.0. */
  datatype Numeral = Whole(i: int) | Floating(r: real)

  datatype Value =
    | Null
    | Bool(b: bool)
    | Number(n: Numeral)
    | Str(s: string)
    | Arr(items: seq<Value>)
    | Obj(fields: Fields)

  predicate SubsetMatch(filter: Value, payload: Value)
    decreases filter, payload
  {
    match (filter, payload)
    case (Obj(f), Obj(p)) => forall k | k in f :: k in p && SubsetMatch(f[k], p[k])
    case (Arr(f), Arr(p)) => forall x | x in f :: exists y | y in p :: SubsetMatch(x, y)
    case (_, Obj(p)) => exists k | k in p :: SubsetMatch(filter, p[k])
    case (_, Arr(p)) => exists y | y in p :: SubsetMatch(filter, y)
    case _ => filter == payload
  }

  predicate JsonSubset(reference: Value, thing: Value)
    decreases reference
  {
    match (reference, thing)
    case (Obj(r), Obj(t)) => forall k | k in r :: k in t && JsonSubset(r[k], t[k])
    case (Arr(r), Arr(t)) => forall x | x in r :: exists y | y in t :: JsonSubset(x, y)
    case _ => reference == thing
  }

  // ---- json_subset along object paths ----

  /** The value reached by these keys. */
  ghost function Lookup(v: Value, path: seq<string>): Option<Value> {
    if path == [] then Some(v)
    else if v.Obj? && path[0] in v.fields then Lookup(v.fields[path[0]], path[1..])
    else None
  }

  /** What the reference holds at this path, the thing holds there too: an object, an array with a match for every item, or the same scalar. */
  ghost predicate AgreeAt(reference: Value, thing: Value, path: seq<string>) {
    var r, t := Lookup(reference, path), Lookup(thing, path);
    r.Some? ==>
      && t.Some?
      && match r.value
         case Obj(_) => t.value.Obj?
         case Arr(items) => t.value.Arr? && forall x | x in items :: exists y | y in t.value.items :: JsonSubset(x, y)
         case scalar => t.value == scalar
  }

  /** json_subset means agreement along every path of the reference, whatever else the thing holds. */
  lemma {:induction false} JsonSubsetIff(reference: Value, thing: Value)
    ensures JsonSubset(reference, thing) <==> forall path :: AgreeAt(reference, thing, path)
    decreases reference
  {
    if JsonSubset(reference, thing) {
      forall path ensures AgreeAt(reference, thing, path) {
        SubsetAgrees(reference, thing, path);
      }
    } else if forall path :: AgreeAt(reference, thing, path) {
      assert AgreeAt(reference, thing, []);
      var k :| k in reference.fields && !(k in thing.fields && JsonSubset(reference.fields[k], thing.fields[k]));
      assert [k][1..] == [] && [k][0] == k;
      assert Lookup(reference, [k]) == Some(reference.fields[k]);
      assert AgreeAt(reference, thing, [k]);
      assert k in thing.fields;
      forall path ensures AgreeAt(reference.fields[k], thing.fields[k], path) {
        assert ([k] + path)[1..] == path;
        assert AgreeAt(reference, thing, [k] + path);
      }
      JsonSubsetIff(reference.fields[k], thing.fields[k]);
    }
  }

  lemma {:induction false} SubsetAgrees(reference: Value, thing: Value, path: seq<string>)
    requires JsonSubset(reference, thing)
    ensures AgreeAt(reference, thing, path)
    decreases |path|
  {
    if path != [] && reference.Obj? && path[0] in reference.fields {
      SubsetAgrees(reference.fields[path[0]], thing.fields[path[0]], path[1..]);
    }
  }

  // ---- json_subset is a preorder ----

  lemma {:induction false} JsonSubsetReflexive(v: Value)
    ensures JsonSubset(v, v)
  {
    match v
    case Obj(f) =>
      forall k | k in f ensures JsonSubset(f[k], f[k]) { JsonSubsetReflexive(f[k]); }
    case Arr(xs) =>
      forall x | x in xs ensures exists y | y in xs :: JsonSubset(x, y) { JsonSubsetReflexive(x); }
    case _ =>
  }

  lemma {:induction false} JsonSubsetTransitive(a: Value, b: Value, c: Value)
    requires JsonSubset(a, b) && JsonSubset(b, c)
    ensures JsonSubset(a, c)
    decreases a
  {
    if a.Obj? && c.Obj? {
      forall k | k in a.fields ensures k in c.fields && JsonSubset(a.fields[k], c.fields[k]) {
        JsonSubsetTransitive(a.fields[k], b.fields[k], c.fields[k]);
      }
    } else if a.Arr? && c.Arr? {
      forall x | x in a.items ensures exists z | z in c.items :: JsonSubset(x, z) {
        var y :| y in b.items && JsonSubset(x, y);
        var z :| z in c.items && JsonSubset(y, z);
        JsonSubsetTransitive(x, y, z);
      }
    }
  }

  // ---- subset_match is closed under json_subset on both sides ----

  /** Narrowing the filter keeps a match. */
  lemma {:induction false} SubsetMatchNarrowFilter(f': Value, f: Value, p: Value)
    requires JsonSubset(f', f) && SubsetMatch(f, p)
    ensures SubsetMatch(f', p)
    decreases f', p
  {
    if f'.Obj? && p.Obj? {
      forall k | k in f'.fields ensures k in p.fields && SubsetMatch(f'.fields[k], p.fields[k]) {
        SubsetMatchNarrowFilter(f'.fields[k], f.fields[k], p.fields[k]);
      }
    } else if f'.Arr? && p.Arr? {
      forall x | x in f'.items ensures exists z | z in p.items :: SubsetMatch(x, z) {
        var y :| y in f.items && JsonSubset(x, y);
        var z :| z in p.items && SubsetMatch(y, z);
        SubsetMatchNarrowFilter(x, y, z);
      }
    } else if p.Obj? {
      var k :| k in p.fields && SubsetMatch(f, p.fields[k]);
      SubsetMatchNarrowFilter(f', f, p.fields[k]);
    } else if p.Arr? {
      var z :| z in p.items && SubsetMatch(f, z);
      SubsetMatchNarrowFilter(f', f, z);
    }
  }

  /** Widening the payload keeps a match. */
  lemma {:induction false} SubsetMatchWidenPayload(f: Value, p: Value, p': Value)
    requires SubsetMatch(f, p) && JsonSubset(p, p')
    ensures SubsetMatch(f, p')
    decreases f, p
  {
    if f.Obj? && p.Obj? {
      forall k | k in f.fields ensures k in p'.fields && SubsetMatch(f.fields[k], p'.fields[k]) {
        SubsetMatchWidenPayload(f.fields[k], p.fields[k], p'.fields[k]);
      }
    } else if f.Arr? && p.Arr? {
      forall x | x in f.items ensures exists z | z in p'.items :: SubsetMatch(x, z) {
        var y :| y in p.items && SubsetMatch(x, y);
        var z :| z in p'.items && JsonSubset(y, z);
        SubsetMatchWidenPayload(x, y, z);
      }
    } else if p.Obj? {
      var k :| k in p.fields && SubsetMatch(f, p.fields[k]);
      SubsetMatchWidenPayload(f, p.fields[k], p'.fields[k]);
    } else if p.Arr? {
      var y :| y in p.items && SubsetMatch(f, y);
      var z :| z in p'.items && JsonSubset(y, z);
      SubsetMatchWidenPayload(f, y, z);
    }
  }

  lemma {:induction false} SubsetMatchReflexive(v: Value)
    ensures SubsetMatch(v, v)
  {
    match v
    case Obj(f) =>
      forall k | k in f ensures SubsetMatch(f[k], f[k]) { SubsetMatchReflexive(f[k]); }
    case Arr(xs) =>
      forall x | x in xs ensures exists y | y in xs :: SubsetMatch(x, y) { SubsetMatchReflexive(x); }
    case _ =>
  }

  /** The strict matcher implies the loose one. */
  lemma JsonSubsetImpliesSubsetMatch(r: Value, t: Value)
    requires JsonSubset(r, t)
    ensures SubsetMatch(r, t)
  {
    SubsetMatchReflexive(r);
    SubsetMatchWidenPayload(r, r, t);
  }

  // ---- where subset_match is transitive ----

  /** No object with keys is reached through arrays alone. */
  predicate Flat(v: Value) {
    match v
    case Obj(f) => f == map[]
    case Arr(xs) => forall x | x in xs :: Flat(x)
    case _ => true
  }

  /** What an array filter finds in y, each of its elements finds there. */
  lemma {:induction false} ElementMatch(f: Value, x: Value, y: Value)
    requires f.Arr? && Flat(f) && x in f.items && SubsetMatch(f, y)
    ensures SubsetMatch(x, y)
    decreases f, y, 0
  {
    if y.Arr? {
      var z :| z in y.items && SubsetMatch(x, z);
      MatchInside(x, z, y);
    } else if y.Obj? {
      var k :| k in y.fields && SubsetMatch(f, y.fields[k]);
      ElementMatch(f, x, y.fields[k]);
    }
  }

  /** What a flat filter finds in an element, it finds in the array. */
  lemma {:induction false} MatchInside(x: Value, z: Value, y: Value)
    requires Flat(x) && y.Arr? && z in y.items && SubsetMatch(x, z)
    ensures SubsetMatch(x, y)
    decreases x, y, 1
  {
    if x.Arr? {
      forall x' | x' in x.items ensures exists z | z in y.items :: SubsetMatch(x', z) {
        ElementMatch(x, x', z);
      }
    }
  }

  lemma {:induction false} FlatTransitive(f: Value, g: Value, h: Value)
    requires Flat(f) && SubsetMatch(f, g) && SubsetMatch(g, h)
    ensures SubsetMatch(f, h)
    decreases f, g, h
  {
    if h.Obj? {
      if g.Obj? {
        if !f.Obj? {
          var k :| k in g.fields && SubsetMatch(f, g.fields[k]);
          FlatTransitive(f, g.fields[k], h.fields[k]);
        }
      } else {
        var k :| k in h.fields && SubsetMatch(g, h.fields[k]);
        FlatTransitive(f, g, h.fields[k]);
      }
    } else if h.Arr? {
      if g.Arr? {
        if f.Arr? {
          forall x | x in f.items ensures exists z | z in h.items :: SubsetMatch(x, z) {
            var y :| y in g.items && SubsetMatch(x, y);
            var z :| z in h.items && SubsetMatch(y, z);
            FlatTransitive(x, y, z);
          }
        } else {
          var y :| y in g.items && SubsetMatch(f, y);
          var z :| z in h.items && SubsetMatch(y, z);
          FlatTransitive(f, y, z);
        }
      } else {
        var z :| z in h.items && SubsetMatch(g, z);
        FlatTransitive(f, g, z);
        MatchInside(f, z, h);
      }
    }
  }

  /** v inside n arrays of one element. */
  function Wrapped(v: Value, n: nat): Value {
    if n == 0 then v else Arr([Wrapped(v, n - 1)])
  }

  /** x is v or is reached in it through arrays. */
  ghost predicate Nested(x: Value, v: Value)
    decreases v
  {
    x == v || (v.Arr? && exists y | y in v.items :: Nested(x, y))
  }

  lemma {:induction false} NestedItem(x: Value, x': Value, v: Value)
    requires Nested(x, v) && x.Arr? && x' in x.items
    ensures Nested(x', v)
    decreases v
  {
    if x == v {
      assert Nested(x', x');
    } else {
      var y :| y in v.items && Nested(x, y);
      NestedItem(x, x', y);
    }
  }

  /** Whatever is nested in v is found in v, however deep v is wrapped. */
  lemma {:induction false} NestedMatches(x: Value, v: Value, n: nat)
    requires Nested(x, v)
    ensures SubsetMatch(x, Wrapped(v, n))
    decreases n, v, x
  {
    var w := Wrapped(v, n);
    if n > 0 {
      assert w.items == [Wrapped(v, n - 1)] && Wrapped(v, n - 1) in w.items;
      if x.Arr? {
        forall x' | x' in x.items ensures exists y | y in w.items :: SubsetMatch(x', y) {
          NestedItem(x, x', v);
          NestedMatches(x', v, n - 1);
        }
      } else {
        NestedMatches(x, v, n - 1);
      }
    } else if x == v {
      SubsetMatchReflexive(x);
    } else {
      var y :| y in v.items && Nested(x, y);
      NestedMatches(x, y, 0);
      if x.Arr? {
        forall x' | x' in x.items ensures exists y | y in v.items :: SubsetMatch(x', y) {
          NestedItem(x, x', y);
          NestedMatches(x', y, 0);
        }
      }
    }
  }

  /** Where the filter meets, at the depth of such an object, an object without one of its keys, it does not match. */
  lemma {:induction false} ObjectBlocks(f: Value) returns (depth: nat, k: string)
    requires !Flat(f)
    ensures forall key, v | key != k :: !SubsetMatch(f, Wrapped(Obj(map[key := v]), depth))
    decreases f
  {
    if f.Obj? {
      k :| k in f.fields;
      depth := 0;
      forall key, v | key != k ensures !SubsetMatch(f, Wrapped(Obj(map[key := v]), 0)) {
        assert k !in map[key := v];
      }
    } else {
      var x :| x in f.items && !Flat(x);
      var d;
      d, k := ObjectBlocks(x);
      depth := d + 1;
      forall key, v | key != k ensures !SubsetMatch(f, Wrapped(Obj(map[key := v]), depth)) {
        var inner := Wrapped(Obj(map[key := v]), d);
        assert Wrapped(Obj(map[key := v]), depth).items == [inner];
        assert !SubsetMatch(x, inner);
      }
    }
  }

  /** The search goes down through wrapping arrays of the same depth on both sides. */
  lemma {:induction false} WrapBoth(g: Value, h: Value, n: nat)
    requires SubsetMatch(g, h)
    ensures SubsetMatch(Wrapped(g, n), Wrapped(h, n))
  {
    if n > 0 {
      WrapBoth(g, h, n - 1);
      assert Wrapped(h, n - 1) in Wrapped(h, n).items;
    }
  }

  lemma {:induction false} WrapMore(v: Value, n: nat)
    ensures Wrapped(Arr([v]), n) == Wrapped(v, n + 1)
  {
    if n > 0 {
      WrapMore(v, n - 1);
    }
  }

  ghost predicate TransitiveFrom(f: Value) {
    forall g, h | SubsetMatch(f, g) && SubsetMatch(g, h) :: SubsetMatch(f, h)
  }

  /** The loose matcher is transitive from exactly those filters that reach no object with keys through arrays. */
  lemma TransitiveIff(f: Value)
    ensures TransitiveFrom(f) <==> Flat(f)
  {
    if Flat(f) {
      forall g, h | SubsetMatch(f, g) && SubsetMatch(g, h) ensures SubsetMatch(f, h) {
        FlatTransitive(f, g, h);
      }
    } else {
      var d, k := ObjectBlocks(f);
      var key := k + "x";
      assert |key| != |k|;
      var inner := Arr([f]);
      var bottom := Obj(map[key := inner]);
      var g, h := Wrapped(f, d + 1), Wrapped(bottom, d);
      assert Nested(f, f);
      NestedMatches(f, f, d + 1);
      SubsetMatchReflexive(inner);
      assert key in bottom.fields && SubsetMatch(inner, bottom);
      WrapBoth(inner, bottom, d);
      WrapMore(f, d);
      assert SubsetMatch(f, g) && SubsetMatch(g, h) && !SubsetMatch(f, h);
    }
  }
}
