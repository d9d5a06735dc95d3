/** Small shared vocabulary: optional values, byte strings and the text helpers used by several components. */
module Common {

  datatype Option<+T> = None | Some(value: T) {
    function GetOr(default: T): T {
      if Some? then value else default
    }
  }

  newtype u8 = x: int | 0 <= x < 0x100
  newtype u16 = x: int | 0 <= x < 0x1_0000

  type Bytes = seq<u8>

  const U32: int := 0x1_0000_0000

  /** Position of the first occurrence of `c`, or |s| when there is none. */
  function FirstIndex(s: string, c: char): (i: nat)
    ensures i <= |s| && c !in s[..i] && (i < |s| ==> s[i] == c)
  {
    if s == [] || s[0] == c then 0 else
      var i := FirstIndex(s[1..], c) + 1;
      assert s[..i] == [s[0]] + s[1..][..i - 1];
      i
  }

  lemma {:induction false} FirstIndexIs(before: string, c: char, after: string)
    requires c !in before
    ensures FirstIndex(before, c) == |before| && FirstIndex(before + [c] + after, c) == |before|
  {
    if before != [] {
      FirstIndexIs(before[1..], c, after);
      assert before[0] in before;
      assert (before + [c] + after)[1..] == before[1..] + [c] + after;
    }
  }

  /** Position of the last occurrence of `c`, or |s| when there is none. */
  function LastIndex(s: string, c: char): (i: nat)
    ensures i <= |s| && (i < |s| ==> s[i] == c && c !in s[i + 1..]) && (i == |s| ==> c !in s)
  {
    if s == [] then 0
    else if s[|s| - 1] == c then |s| - 1
    else
      var i := LastIndex(s[..|s| - 1], c);
      if i < |s| - 1 then assert s[i + 1..] == s[..|s| - 1][i + 1..] + [s[|s| - 1]]; i else |s|
  }

  predicate OccursAt<T(==)>(hay: seq<T>, needle: seq<T>, i: nat) {
    i + |needle| <= |hay| && hay[i..i + |needle|] == needle
  }

  predicate Contains(hay: string, needle: string) {
    exists i | 0 <= i <= |hay| :: OccursAt(hay, needle, i)
  }

  predicate StartsWith(s: string, prefix: string) {
    prefix <= s
  }

  predicate EndsWith(s: string, suffix: string) {
    |suffix| <= |s| && s[|s| - |suffix|..] == suffix
  }

  /** Unicode White_Space, the characters Rust's `trim` removes. */
  predicate IsWhite(c: char) {
    var n := c as int;
    || 0x09 <= n <= 0x0D || n == 0x20 || n == 0x85 || n == 0xA0 || n == 0x1680
    || 0x2000 <= n <= 0x200A || n == 0x2028 || n == 0x2029 || n == 0x202F || n == 0x205F || n == 0x3000
  }

  function Trim(s: string): string {
    if s == [] then []
    else if IsWhite(s[0]) then Trim(s[1..])
    else if IsWhite(s[|s| - 1]) then Trim(s[..|s| - 1])
    else s
  }

  ghost predicate AllWhite(s: string) {
    forall i | 0 <= i < |s| :: IsWhite(s[i])
  }

  /** What is trimmed is white, and what stays neither starts nor ends white. */
  lemma {:induction false} TrimIs(s: string) returns (before: string, after: string)
    ensures s == before + Trim(s) + after && AllWhite(before) && AllWhite(after)
    ensures Trim(s) != "" ==> !IsWhite(Trim(s)[0]) && !IsWhite(Trim(s)[|Trim(s)| - 1])
    decreases |s|
  {
    if s != [] && IsWhite(s[0]) {
      var b, e := TrimIs(s[1..]);
      assert s == [s[0]] + (b + Trim(s) + e) == ([s[0]] + b) + Trim(s) + e;
      WhiteAround(s[0], b);
      before, after := [s[0]] + b, e;
    } else if s != [] && IsWhite(s[|s| - 1]) {
      var b, e := TrimIs(s[..|s| - 1]);
      assert s == (b + Trim(s) + e) + [s[|s| - 1]] == b + Trim(s) + (e + [s[|s| - 1]]);
      WhiteAround(s[|s| - 1], e);
      before, after := b, e + [s[|s| - 1]];
    } else {
      before, after := "", "";
      assert "" + s + "" == s;
    }
  }

  lemma WhiteAround(c: char, s: string)
    requires IsWhite(c) && AllWhite(s)
    ensures AllWhite([c] + s) && AllWhite(s + [c])
  {
  }

  ghost function Elements<T>(s: seq<T>): set<T> {
    set x | x in s
  }

  ghost predicate Distinct<T>(s: seq<T>) {
    forall i, j | 0 <= i < j < |s| :: s[i] != s[j]
  }

  lemma {:induction false} DistinctSize<T>(s: seq<T>)
    ensures |Elements(s)| <= |s|
    ensures |Elements(s)| == |s| <==> Distinct(s)
  {
    if s != [] {
      var n := |s| - 1;
      var init, all := Elements(s[..n]), Elements(s);
      DistinctSize(s[..n]);
      assert s == s[..n] + [s[n]];
      assert all == init + {s[n]};
      if s[n] in init {
        assert all == init;
        var i :| 0 <= i < n && s[..n][i] == s[n];
        assert s[i] == s[n];
      } else if Distinct(s[..n]) {
        forall i, j | 0 <= i < j < |s| ensures s[i] != s[j] {
          assert s[..n][i] == s[i];
          if j < n { assert s[..n][j] == s[j]; }
        }
      } else {
        var i, j :| 0 <= i < j < n && s[..n][i] == s[..n][j];
        assert s[i] == s[j];
      }
    }
  }

  lemma ConcatAssoc<T>(a: seq<T>, b: seq<T>, c: seq<T>)
    ensures a + (b + c) == a + b + c
  {
  }

  // ---- 32-bit integers as bytes; larger ones are truncated ----

  function Le32(n: nat): (b: Bytes)
    ensures |b| == 4
  {
    var n1 := n / 0x100;
    var n2 := n1 / 0x100;
    var n3 := n2 / 0x100;
    [(n % 0x100) as u8, (n1 % 0x100) as u8, (n2 % 0x100) as u8, (n3 % 0x100) as u8]
  }

  function FromLe32(b: Bytes): (n: nat)
    requires |b| == 4
    ensures n < U32
  {
    b[0] as int + 0x100 * (b[1] as int + 0x100 * (b[2] as int + 0x100 * b[3] as int))
  }

  lemma Le32RoundTrip(n: nat)
    requires n < U32
    ensures FromLe32(Le32(n)) == n
  {
  }

  function Be32(n: nat): (b: Bytes)
    ensures |b| == 4
  {
    var n1 := n / 0x100;
    var n2 := n1 / 0x100;
    var n3 := n2 / 0x100;
    [(n3 % 0x100) as u8, (n2 % 0x100) as u8, (n1 % 0x100) as u8, (n % 0x100) as u8]
  }

  function FromBe32(b: Bytes): (n: nat)
    requires |b| == 4
    ensures n < U32
  {
    b[3] as int + 0x100 * (b[2] as int + 0x100 * (b[1] as int + 0x100 * b[0] as int))
  }

  lemma Be32RoundTrip(n: nat)
    requires n < U32
    ensures FromBe32(Be32(n)) == n
  {
  }

  /** The most significant byte first; the other way round for Le32. */
  lemma DigitsOf(a: u8, b: u8, c: u8, d: u8)
    ensures var n := ((a as int * 0x100 + b as int) * 0x100 + c as int) * 0x100 + d as int;
            && Be32(n) == [a, b, c, d] && FromBe32([a, b, c, d]) == n
            && Le32(n) == [d, c, b, a] && FromLe32([d, c, b, a]) == n
  {
    var n2 := a as int * 0x100 + b as int;
    var n3 := n2 * 0x100 + c as int;
    var n := n3 * 0x100 + d as int;
    assert n / 0x100 == n3 && n % 0x100 == d as int;
    assert n3 / 0x100 == n2 && n3 % 0x100 == c as int;
    assert n2 / 0x100 == a as int && n2 % 0x100 == b as int;
  }

  /** Every four bytes are those of the number they stand for. */
  lemma Be32Of(b: Bytes)
    requires |b| == 4
    ensures Be32(FromBe32(b)) == b
  {
    DigitsOf(b[0], b[1], b[2], b[3]);
    assert b == [b[0], b[1], b[2], b[3]];
  }
}
