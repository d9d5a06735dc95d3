/**
 What merge_json leaves at each key (crates/flow/src/triggers.rs). The loop goes
 through the keys of the merged-in object in ascending order and remembers only
 the last key it forced, so whether a "&k" overrides "k" depends on the other
 forced keys.
 */
module FlowMerge {
  import opened Common
  import opened Json
  import opened FlowModel

  predicate Before(a: string, b: string) {
    AtMost(a, b) && a != b
  }

  /** p is the forced key of `keys` next before k. */
  predicate NextBefore(keys: set<string>, p: string, k: string) {
    && p in keys && IsForced(p) && Before(p, k)
    && forall j | j in keys && IsForced(j) && Before(j, k) :: AtMost(j, p)
  }

  function ForcedBelow(keys: set<string>, k: string): set<string> {
    set j | j in keys && IsForced(j) && Before(j, k)
  }

  /**
   A forced key k is passed over when "&k" is the forced key just before it and is
   not passed over itself: then the loop takes k for the copy it has just written.
   */
  predicate PassedOver(keys: set<string>, k: string)
    decreases ForcedBelow(keys, k)
  {
    if NextBefore(keys, "&" + k, k) then
      BelowShrinks(keys, "&" + k, k);
      !PassedOver(keys, "&" + k)
    else false
  }

  lemma BelowShrinks(keys: set<string>, p: string, k: string)
    requires NextBefore(keys, p, k)
    ensures ForcedBelow(keys, p) < ForcedBelow(keys, k)
  {
    forall j | j in ForcedBelow(keys, p) ensures j in ForcedBelow(keys, k) {
      AtMostTransitive(j, p, k);
      AtMostTotal(p, k);
    }
    assert p in ForcedBelow(keys, k) && p !in ForcedBelow(keys, p);
  }

  /** "&x" is there and is written to x. */
  predicate HasCopy(keys: set<string>, x: string) {
    "&" + x in keys && !PassedOver(keys, "&" + x)
  }

  predicate LastForced(keys: set<string>, k: string) {
    forall j | j in keys && IsForced(j) :: AtMost(j, k)
  }

  /** x comes after every forced key, so that a plain x is written after its forced copy. */
  predicate AfterForced(x: string) {
    x != "" && x[0] > '&'
  }

  /** The forced copy of x decides the value at x, whether or not x is there too. */
  predicate CopyWins(keys: set<string>, x: string) {
    HasCopy(keys, x) && (x in keys && AfterForced(x) ==> LastForced(keys, "&" + x))
  }

  /** A plain x is written to x; the empty key never is. */
  predicate HasPlain(keys: set<string>, x: string) {
    x in keys && x != "" && !IsForced(x)
  }

  /** The value at x after merging b: the forced copy's, the plain one's, or what was there. */
  function ValueAt(a: Fields, b: Fields, x: string): Option<Value> {
    if CopyWins(b.Keys, x) then Some(b["&" + x])
    else if HasPlain(b.Keys, x) then Some(b[x])
    else if x in a then Some(a[x]) else None
  }

  function At(m: Fields, x: string): Option<Value> {
    if x in m then Some(m[x]) else None
  }

  // ---- the loop ----

  /** The loop with `rest` to go: `last` is the greatest forced key behind it, and `forced` what it left. */
  ghost predicate Underway(keys: set<string>, rest: set<string>, forced: string, last: Option<string>) {
    && rest <= keys
    && (forall j, k | j in keys && j !in rest && k in rest :: Before(j, k))
    && match last
       case None => forced == "" && forall j | j in keys && IsForced(j) :: j in rest
       case Some(g) =>
         && g in keys && g !in rest && IsForced(g)
         && (forall j | j in keys && j !in rest && IsForced(j) :: AtMost(j, g))
         && forced == if PassedOver(keys, g) then g else g[1..]
  }

  /** What the rest of the loop makes of x. */
  function RestAt(a: Fields, b: Fields, rest: set<string>, x: string): Option<Value>
    requires rest <= b.Keys
  {
    var copy := "&" + x in rest && HasCopy(b.Keys, x);
    var plain := x in rest && HasPlain(b.Keys, x);
    if AfterForced(x) then
      if plain && !CopyWins(b.Keys, x) then Some(b[x])
      else if copy then Some(b["&" + x]) else At(a, x)
    else
      if copy then Some(b["&" + x]) else if plain then Some(b[x]) else At(a, x)
  }

  lemma LeastFirst(rest: set<string>, k: string)
    requires IsLeast(k, rest)
    ensures forall j | j in rest && j != k :: Before(k, j)
  {
  }

  lemma ForcedIs(k: string)
    requires IsForced(k)
    ensures k == "&" + k[1..]
  {
  }

  /** The forced key just before the next one is the last behind the loop, if that is it. */
  lemma NextIsLast(keys: set<string>, rest: set<string>, forced: string, last: Option<string>, k: string)
    requires Underway(keys, rest, forced, last) && IsLeast(k, rest) && IsForced(k)
    ensures PassedOver(keys, k) <==> forced == k
  {
    LeastFirst(rest, k);
    var p := "&" + k;
    AtMostTotal(p, k);
    assert p[1..] == k;
    if last.Some? {
      var g := last.value;
      ForcedIs(g);
      forall j | j in keys && IsForced(j) && Before(j, k) ensures AtMost(j, g) {
        AtMostTotal(j, k);
      }
      assert NextBefore(keys, g, k);
      AtMostTotal(p, g);
      assert NextBefore(keys, p, k) <==> p == g;
    }
  }

  /** A plain key is passed over exactly when it comes after every forced key and the last of them is its copy. */
  lemma PlainPassed(keys: set<string>, rest: set<string>, forced: string, last: Option<string>, k: string)
    requires Underway(keys, rest, forced, last) && IsLeast(k, rest) && !IsForced(k)
    ensures forced == k <==> k == "" || (AfterForced(k) && CopyWins(keys, k))
  {
    LeastFirst(rest, k);
    if AfterForced(k) {
      forall j | j in keys && IsForced(j) ensures j !in rest {
        assert AtMost(j, k) && j != k;
        AtMostTotal(j, k);
      }
      var p := "&" + k;
      assert p[1..] == k && IsForced(p);
      if last.Some? {
        var g := last.value;
        ForcedIs(g);
        if LastForced(keys, p) && p in keys {
          AtMostTotal(p, g);
        }
      }
    } else {
      forall j | j in keys && IsForced(j) ensures j in rest {
        assert AtMost(k, j) && j != k;
        AtMostTotal(j, k);
      }
      assert last.None?;
    }
  }

  /** One key of the loop. */
  ghost function Taken(a: Fields, b: Fields, forced: string, k: string): (Fields, string)
    requires k in b
  {
    if forced == k then (a, forced)
    else if IsForced(k) then (a[k[1..] := b[k]], k[1..])
    else (a[k := b[k]], forced)
  }

  lemma {:induction false} StaysUnderway(a: Fields, b: Fields, rest: set<string>, forced: string, last: Option<string>, k: string)
    requires Underway(b.Keys, rest, forced, last) && IsLeast(k, rest)
    ensures Underway(b.Keys, rest - {k}, Taken(a, b, forced, k).1, if IsForced(k) then Some(k) else last)
  {
    LeastFirst(rest, k);
    if IsForced(k) {
      NextIsLast(b.Keys, rest, forced, last, k);
      forall j | j in b.Keys && j !in rest - {k} && IsForced(j) ensures AtMost(j, k) {
        AtMostTotal(j, k);
      }
    }
  }

  lemma {:induction false} RestStep(a: Fields, b: Fields, rest: set<string>, forced: string, last: Option<string>, k: string, x: string)
    requires Underway(b.Keys, rest, forced, last) && IsLeast(k, rest)
    ensures RestAt(a, b, rest, x) == RestAt(Taken(a, b, forced, k).0, b, rest - {k}, x)
  {
    LeastFirst(rest, k);
    if IsForced(k) {
      NextIsLast(b.Keys, rest, forced, last, k);
      ForcedIs(k);
      assert ("&" + x)[1..] == x;
    } else {
      PlainPassed(b.Keys, rest, forced, last, k);
    }
  }

  lemma {:induction false} MergedFrom(a: Fields, b: Fields, rest: set<string>, forced: string, last: Option<string>, x: string)
    requires Underway(b.Keys, rest, forced, last)
    ensures At(Merged(a, b, rest, forced), x) == RestAt(a, b, rest, x)
    decreases |rest|
  {
    if rest != {} {
      var k := Least(rest);
      StaysUnderway(a, b, rest, forced, last, k);
      RestStep(a, b, rest, forced, last, k, x);
      MergedFrom(Taken(a, b, forced, k).0, b, rest - {k}, Taken(a, b, forced, k).1, if IsForced(k) then Some(k) else last, x);
    }
  }

  /** The value merge_json leaves at every key, read off the keys of the two objects. */
  lemma MergedAt(a: Fields, b: Fields, x: string)
    ensures At(Merged(a, b, b.Keys, ""), x) == ValueAt(a, b, x)
  {
    MergedFrom(a, b, b.Keys, "", None, x);
  }

  // ---- what that means ----

  /** A key and a forced copy with another value: the copy decides exactly when CopyWins says so, the plain value otherwise. */
  lemma CopyDecidesIff(a: Fields, b: Fields, x: string)
    requires HasPlain(b.Keys, x) && "&" + x in b && b["&" + x] != b[x]
    ensures x in Merged(a, b, b.Keys, "")
    ensures Merged(a, b, b.Keys, "")[x] == b["&" + x] <==> CopyWins(b.Keys, x)
    ensures Merged(a, b, b.Keys, "")[x] == b[x] <==> !CopyWins(b.Keys, x)
  {
    MergedAt(a, b, x);
  }

  /** As soon as another key is forced after it, the copy of a key that comes after all of them is lost. */
  lemma LaterCopyUndoes(a: Fields, b: Fields, x: string, later: string)
    requires x in b && AfterForced(x) && later in b && IsForced(later) && Before("&" + x, later)
    ensures x in Merged(a, b, b.Keys, "") && Merged(a, b, b.Keys, "")[x] == b[x]
  {
    AtMostTotal("&" + x, later);
    MergedAt(a, b, x);
  }

  /** Without doubly forced keys no copy is passed over. */
  lemma NonePassed(keys: set<string>, k: string)
    requires forall j | j in keys && IsForced(j) :: !IsForced(j[1..])
    requires IsForced(k)
    ensures !PassedOver(keys, k)
  {
    var p := "&" + k;
    assert p[1..] == k && IsForced(p);
  }
}
