/** Strings: searching, trimming, and the code-point order used for sorting. */
module Text {
  import Sorting

  lemma Associative<T>(a: seq<T>, b: seq<T>, c: seq<T>)
    ensures a + b + c == a + (b + c)
  {
  }

  /** The index of the first character of `t` that is in `cs`, or |t|. */
  function IndexOf(t: string, cs: set<char>): (i: nat)
    ensures i <= |t|
    ensures i < |t| ==> t[i] in cs
    ensures forall j | 0 <= j < i :: t[j] !in cs
  {
    if t == [] || t[0] in cs then 0 else 1 + IndexOf(t[1..], cs)
  }

  lemma FirstAt(t: string, cs: set<char>, i: nat)
    requires i <= |t| && (i < |t| ==> t[i] in cs)
    requires forall j | 0 <= j < i :: t[j] !in cs
    ensures IndexOf(t, cs) == i
  {
  }

  lemma FirstAfter(prefix: string, rest: string, cs: set<char>)
    requires forall j | 0 <= j < |prefix| :: prefix[j] !in cs
    requires rest == [] || rest[0] in cs
    ensures IndexOf(prefix + rest, cs) == |prefix|
    ensures (prefix + rest)[..|prefix|] == prefix
    ensures rest != [] ==> (prefix + rest)[|prefix| + 1..] == rest[1..]
  {
    FirstAt(prefix + rest, cs, |prefix|);
  }

  /** The characters `str.strip` removes. */
  predicate IsSpace(c: char) {
    var n := c as int;
    || 0x09 <= n <= 0x0D || 0x1C <= n <= 0x20 || n == 0x85 || n == 0xA0 || n == 0x1680
    || 0x2000 <= n <= 0x200A || n == 0x2028 || n == 0x2029 || n == 0x202F || n == 0x205F || n == 0x3000
  }

  function StripLeft(t: string): (r: string)
    ensures |r| <= |t| && r == t[|t| - |r|..]
    ensures forall i | 0 <= i < |t| - |r| :: IsSpace(t[i])
    ensures r != [] ==> !IsSpace(r[0])
  {
    if t != [] && IsSpace(t[0]) then StripLeft(t[1..]) else t
  }

  function StripRight(t: string): (r: string)
    ensures |r| <= |t| && r == t[..|r|]
    ensures forall i | |r| <= i < |t| :: IsSpace(t[i])
    ensures r != [] ==> !IsSpace(r[|r| - 1])
  {
    if t != [] && IsSpace(t[|t| - 1]) then StripRight(t[..|t| - 1]) else t
  }

  function Strip(t: string): string {
    StripRight(StripLeft(t))
  }

  predicate Stripped(t: string) {
    t != [] ==> !IsSpace(t[0]) && !IsSpace(t[|t| - 1])
  }

  lemma StripResult(t: string)
    ensures Stripped(Strip(t))
    ensures Strip(t) == [] <==> forall i | 0 <= i < |t| :: IsSpace(t[i])
  {
    var l := StripLeft(t);
    if l != [] {
      assert !IsSpace(t[|t| - |l|]);
    }
  }

  lemma StripIdle(t: string)
    requires Stripped(t)
    ensures Strip(t) == t
  {
  }

  /** Lexicographic order by code point. */
  predicate StringLe(a: string, b: string) {
    a == [] || (b != [] && (a[0] < b[0] || (a[0] == b[0] && StringLe(a[1..], b[1..]))))
  }

  /** The first `i` characters agree, and then `a` ends or has the smaller character. */
  predicate DecidedAt(a: string, b: string, i: int) {
    && 0 <= i <= |a| && i <= |b| && (forall j | 0 <= j < i :: a[j] == b[j])
    && (i == |a| || (i < |b| && a[i] < b[i]))
  }

  /** `a` comes no later than `b`: it is a prefix of `b`, or has the smaller character
      where they first differ. */
  predicate NotAfter(a: string, b: string) {
    exists i | 0 <= i <= |a| :: DecidedAt(a, b, i)
  }

  lemma NotAfterTail(a: string, b: string)
    requires a != [] && b != [] && a[0] == b[0]
    ensures NotAfter(a, b) <==> NotAfter(a[1..], b[1..])
  {
    if i :| 0 <= i <= |a| && DecidedAt(a, b, i) {
      assert DecidedAt(a[1..], b[1..], i - 1);
    }
    if i :| 0 <= i <= |a[1..]| && DecidedAt(a[1..], b[1..], i) {
      assert forall j | 0 < j < i + 1 :: a[j] == a[1..][j - 1] && b[j] == b[1..][j - 1];
      assert DecidedAt(a, b, i + 1);
    }
  }

  lemma {:induction false} StringLeIff(a: string, b: string)
    ensures StringLe(a, b) <==> NotAfter(a, b)
  {
    if a == [] || b == [] || a[0] < b[0] {
      assert a == [] || b != [] ==> DecidedAt(a, b, 0);
    } else if a[0] == b[0] {
      StringLeIff(a[1..], b[1..]);
      NotAfterTail(a, b);
    }
  }

  /** Stripping cuts spaces at both ends and nothing else. */
  lemma StripCuts(t: string) returns (left: string, right: string)
    ensures t == left + (Strip(t) + right) && Stripped(Strip(t))
    ensures (forall i | 0 <= i < |left| :: IsSpace(left[i])) && (forall i | 0 <= i < |right| :: IsSpace(right[i]))
  {
    StripResult(t);
    hide IsSpace, StripLeft, StripRight, Stripped;
    var l := StripLeft(t);
    left, right := t[..|t| - |l|], l[|Strip(t)|..];
    assert l == Strip(t) + right;
    assert t == left + l;
  }

  lemma StringLeReflexive(a: string)
    ensures StringLe(a, a)
  {
  }

  lemma StringLeTotal(a: string, b: string)
    ensures StringLe(a, b) || StringLe(b, a)
  {
  }

  lemma {:induction false} StringLeAntisymmetric(a: string, b: string)
    requires StringLe(a, b) && StringLe(b, a)
    ensures a == b
  {
    if a != [] {
      StringLeAntisymmetric(a[1..], b[1..]);
      assert a == [a[0]] + a[1..] && b == [b[0]] + b[1..];
    }
  }

  lemma {:induction false} StringLeTransitive(a: string, b: string, c: string)
    requires StringLe(a, b) && StringLe(b, c)
    ensures StringLe(a, c)
  {
    if a != [] && a[0] == b[0] == c[0] {
      StringLeTransitive(a[1..], b[1..], c[1..]);
    }
  }

  lemma StringOrder()
    ensures Sorting.TotalOrder(StringLe)
  {
    forall x, y, z
      ensures StringLe(x, x) && (StringLe(x, y) || StringLe(y, x))
      ensures StringLe(x, y) && StringLe(y, x) ==> x == y
      ensures StringLe(x, y) && StringLe(y, z) ==> StringLe(x, z)
    {
      StringLeReflexive(x);
      StringLeTotal(x, y);
      if StringLe(x, y) && StringLe(y, x) { StringLeAntisymmetric(x, y); }
      if StringLe(x, y) && StringLe(y, z) { StringLeTransitive(x, y, z); }
    }
  }
}
