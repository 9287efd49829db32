/** Values shared by the whole model: optional values, Python truthiness of an
    optional string, `max(0, d)` (which is also how many milliseconds
    `asyncio.sleep` waits), and the code-point order Python uses when it
    compares two `str` values. */
module Common {

  datatype Option<T> = None | Some(value: T)

  /** `if x:` on a value that is either `None` or a `str`: false for `None`
      and for the empty string. */
  predicate Truthy(x: Option<string>)
  {
    x.Some? && x.value != ""
  }

  /** `max(0, d)`.  It is also how long `asyncio.sleep` waits for a delay of
      `d` milliseconds: a negative delay returns at once. */
  function Max0(d: int): nat
  {
    if d < 0 then 0 else d
  }

  /** `max(0, d)` is the least natural number at or above `d`, and clamping
      twice is clamping once. */
  lemma Max0IsLeastAbove(d: int, n: nat)
    requires n >= d
    ensures d <= Max0(d) <= n
    ensures d >= 0 ==> Max0(d) == d
    ensures Max0(Max0(d)) == Max0(d)
  {
  }

  lemma MulSucc(d: nat, n: nat)
    ensures d * (n + 1) == d * n + d
  {
  }

  /** Python's `a <= b` on two `str` values: code point by code point, and a
      proper prefix sorts first. */
  predicate StrLe(a: string, b: string)
    decreases |a|
  {
    |a| == 0 || (|b| > 0 && (a[0] < b[0] || (a[0] == b[0] && StrLe(a[1..], b[1..]))))
  }

  /** The textbook definition of lexicographic order, independent of StrLe:
      either a is a prefix of b, or they first differ at some k with a[k] < b[k]. */
  ghost predicate LexLeRef(a: string, b: string)
  {
    (|a| <= |b| && a == b[..|a|]) ||
    exists k :: 0 <= k < |a| && k < |b| && a[..k] == b[..k] && a[k] < b[k]
  }

  lemma {:induction false} StrLeMatchesReference(a: string, b: string)
    ensures StrLe(a, b) <==> LexLeRef(a, b)
  {
    if StrLe(a, b) {
      StrLeToReference(a, b);
    }
    if LexLeRef(a, b) {
      if |a| <= |b| && a == b[..|a|] {
        PrefixStrLe(a, b);
      } else {
        var k :| 0 <= k < |a| && k < |b| && a[..k] == b[..k] && a[k] < b[k];
        FirstDifferenceStrLe(a, b, k);
      }
    }
  }

  lemma {:induction false} StrLeToReference(a: string, b: string)
    requires StrLe(a, b)
    ensures LexLeRef(a, b)
    decreases |a|
  {
    if |a| == 0 {
      assert a == b[..0];
    } else if a[0] < b[0] {
      assert a[..0] == b[..0];
    } else {
      var a', b' := a[1..], b[1..];
      StrLeToReference(a', b');
      if |a'| <= |b'| && a' == b'[..|a'|] {
        assert a == [a[0]] + a' && b[..|a|] == [b[0]] + b'[..|a'|];
      } else {
        var k :| 0 <= k < |a'| && k < |b'| && a'[..k] == b'[..k] && a'[k] < b'[k];
        assert a[..k + 1] == [a[0]] + a'[..k] && b[..k + 1] == [b[0]] + b'[..k];
      }
    }
  }

  lemma {:induction false} PrefixStrLe(a: string, b: string)
    requires |a| <= |b| && a == b[..|a|]
    ensures StrLe(a, b)
    decreases |a|
  {
    if |a| > 0 {
      assert a[0] == b[..|a|][0];
      assert a[1..] == b[1..][..|a| - 1];
      PrefixStrLe(a[1..], b[1..]);
    }
  }

  lemma {:induction false} FirstDifferenceStrLe(a: string, b: string, k: nat)
    requires k < |a| && k < |b| && a[..k] == b[..k] && a[k] < b[k]
    ensures StrLe(a, b)
    decreases k
  {
    if k > 0 {
      assert a[0] == a[..k][0] && b[0] == b[..k][0];
      assert a[1..][..k - 1] == a[..k][1..] && b[1..][..k - 1] == b[..k][1..];
      FirstDifferenceStrLe(a[1..], b[1..], k - 1);
    }
  }

  lemma {:induction false} StrLeReflexive(a: string)
    ensures StrLe(a, a)
    decreases |a|
  {
    if |a| > 0 {
      StrLeReflexive(a[1..]);
    }
  }

  lemma {:induction false} StrLeTransitive(a: string, b: string, c: string)
    requires StrLe(a, b) && StrLe(b, c)
    ensures StrLe(a, c)
    decreases |a|
  {
    if |a| > 0 && a[0] == b[0] && b[0] == c[0] {
      StrLeTransitive(a[1..], b[1..], c[1..]);
    }
  }

  lemma {:induction false} StrLeTotal(a: string, b: string)
    ensures StrLe(a, b) || StrLe(b, a)
    decreases |a|
  {
    if |a| > 0 && |b| > 0 && a[0] == b[0] {
      StrLeTotal(a[1..], b[1..]);
    }
  }

  lemma {:induction false} StrLeAntisymmetric(a: string, b: string)
    requires StrLe(a, b) && StrLe(b, a)
    ensures a == b
    decreases |a|
  {
    if |a| > 0 {
      StrLeAntisymmetric(a[1..], b[1..]);
      assert a == [a[0]] + a[1..] && b == [b[0]] + b[1..];
    }
  }
}
