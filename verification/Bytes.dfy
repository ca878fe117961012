/** Byte strings in unsigned lexicographic order, and big-endian integers written into them.
    A `std::string` is a Dafny string whose characters stand for bytes. */
module Bytes {

  datatype Option<+T> = None | Some(value: T)

  const TWO63: nat := 0x8000_0000_0000_0000
  const TWO64: nat := 0x1_0000_0000_0000_0000

  type u64 = x: int | 0 <= x < TWO64

  /** The order of keys in the key-value store, which is also the order of `std::string`. */
  predicate Less(a: string, b: string) {
    b != "" && (a == "" || a[0] < b[0] || (a[0] == b[0] && Less(a[1..], b[1..])))
  }

  predicate Leq(a: string, b: string) {
    a == b || Less(a, b)
  }

  predicate StartsWith(s: string, p: string) {
    |p| <= |s| && s[..|p|] == p
  }

  lemma {:induction false} LessIrreflexive(a: string)
    ensures !Less(a, a)
  {
    if a != "" { LessIrreflexive(a[1..]); }
  }

  lemma {:induction false} LessTransitive(a: string, b: string, c: string)
    requires Less(a, b) && Less(b, c)
    ensures Less(a, c)
  {
    if a != "" && a[0] == b[0] == c[0] { LessTransitive(a[1..], b[1..], c[1..]); }
  }

  lemma {:induction false} LessTotal(a: string, b: string)
    ensures Less(a, b) || a == b || Less(b, a)
  {
    if a != "" && b != "" && a[0] == b[0] {
      LessTotal(a[1..], b[1..]);
      assert a == [a[0]] + a[1..] && b == [b[0]] + b[1..];
    }
  }

  lemma LessAsymmetric(a: string, b: string)
    requires Less(a, b)
    ensures a != b && !Less(b, a)
  {
    LessIrreflexive(a);
    if Less(b, a) { LessTransitive(a, b, a); }
  }

  /** A common prefix does not affect the order. */
  lemma {:induction false} LessCommonPrefix(p: string, a: string, b: string)
    ensures Less(p + a, p + b) <==> Less(a, b)
  {
    if p == "" {
      assert p + a == a && p + b == b;
    } else {
      assert (p + a)[1..] == p[1..] + a && (p + b)[1..] == p[1..] + b;
      LessCommonPrefix(p[1..], a, b);
    }
  }

  /** A difference inside the first |a| == |b| bytes decides the order. */
  lemma {:induction false} LessDecidedEarly(a: string, b: string, x: string, y: string)
    requires |a| == |b| && Less(a, b)
    ensures Less(a + x, b + y)
  {
    if a[0] == b[0] {
      assert (a + x)[1..] == a[1..] + x && (b + y)[1..] == b[1..] + y;
      LessDecidedEarly(a[1..], b[1..], x, y);
    }
  }

  /** Everything between two extensions of a prefix by single bytes extends the prefix. */
  lemma {:induction false} BetweenSharesPrefix(p: string, a: string, b: string, s: string)
    requires Leq(p + a, s) && Less(s, p + b)
    ensures StartsWith(s, p)
  {
    if p != "" {
      assert (p + a)[1..] == p[1..] + a && (p + b)[1..] == p[1..] + b;
      if p + a == s {
        assert s[..|p|] == p;
      } else {
        assert s != "" && s[0] == p[0] by {
          assert (p + a)[0] == p[0] == (p + b)[0];
        }
        BetweenSharesPrefix(p[1..], a, b, s[1..]);
        assert s[..|p|] == [s[0]] + s[1..][..|p| - 1];
      }
    }
  }

  // ---- big-endian integers ----

  function Pow256(k: nat): (p: nat)
    ensures p > 0
  {
    if k == 0 then 1 else 256 * Pow256(k - 1)
  }

  function BigEndian(v: nat, k: nat): (s: string)
    ensures |s| == k
  {
    if k == 0 then "" else BigEndian(v / 256, k - 1) + [(v % 256) as char]
  }

  function FromBigEndian(s: string): (v: nat)
    ensures v < Pow256(|s|)
  {
    if s == "" then 0 else 256 * FromBigEndian(s[..|s| - 1]) + (s[|s| - 1] as int) % 256
  }

  lemma {:induction false} FromToBigEndian(v: nat, k: nat)
    requires v < Pow256(k)
    ensures FromBigEndian(BigEndian(v, k)) == v
  {
    if k > 0 {
      FromToBigEndian(v / 256, k - 1);
      assert BigEndian(v, k)[..k - 1] == BigEndian(v / 256, k - 1);
    }
  }

  /** Numeric order is byte order. */
  lemma {:induction false} BigEndianOrder(v: nat, w: nat, k: nat)
    requires v < w < Pow256(k)
    ensures Less(BigEndian(v, k), BigEndian(w, k))
  {
    var hv, hw := BigEndian(v / 256, k - 1), BigEndian(w / 256, k - 1);
    var lv, lw := [(v % 256) as char], [(w % 256) as char];
    if v / 256 < w / 256 {
      BigEndianOrder(v / 256, w / 256, k - 1);
      LessDecidedEarly(hv, hw, lv, lw);
    } else {
      LessCommonPrefix(hv, lv, lw);
    }
  }

  lemma Pow256Of8()
    ensures Pow256(8) == TWO64
  {
    assert Pow256(4) == 0x1_0000_0000;
    assert Pow256(8) == 256 * 256 * 256 * 256 * Pow256(4);
  }

  /** `to_key`: the 8-byte big-endian key of an id. */
  function ToKey(v: u64): (s: string)
    ensures |s| == 8 && FromKey(s) == v
  {
    Pow256Of8();
    FromToBigEndian(v, 8);
    BigEndian(v, 8)
  }

  /** `from_key_ptr`: reads 8 bytes. */
  function FromKey(s: string): u64
    requires |s| == 8
  {
    Pow256Of8();
    FromBigEndian(s)
  }

  lemma ToKeyOrder(v: u64, w: u64)
    ensures Less(ToKey(v), ToKey(w)) <==> v < w
  {
    Pow256Of8();
    if v < w {
      BigEndianOrder(v, w, 8);
    } else if w < v {
      BigEndianOrder(w, v, 8);
      LessAsymmetric(ToKey(w), ToKey(v));
    } else {
      LessIrreflexive(ToKey(v));
    }
  }

  // ---- ordered listings of finite sets of keys ----

  predicate StrictlyAscending(ks: seq<string>) {
    forall i, j :: 0 <= i < j < |ks| ==> Less(ks[i], ks[j])
  }

  lemma LeastExists(s: set<string>) returns (k: string)
    requires s != {}
    ensures k in s && forall x :: x in s ==> Leq(k, x)
  {
    k :| k in s;
    if s != {k} {
      var m := LeastExists(s - {k});
      LessTotal(k, m);
      if Less(k, m) {
        forall x | x in s ensures Leq(k, x) {
          if x != k && x != m {
            assert x in s - {k};
            LessTransitive(k, m, x);
          }
        }
      } else {
        k := m;
      }
    }
  }

  function Least(s: set<string>): (k: string)
    requires s != {}
    ensures k in s && forall x :: x in s ==> Leq(k, x)
  {
    assert exists k :: k in s && forall x :: x in s ==> Leq(k, x) by {
      var k := LeastExists(s);
    }
    assert forall a, b :: Less(a, b) ==> a != b && !Less(b, a) by {
      forall a, b | Less(a, b) ensures a != b && !Less(b, a) { LessAsymmetric(a, b); }
    }
    var k :| k in s && forall x :: x in s ==> Leq(k, x);
    k
  }

  /** The keys of a set in the order an iterator of the store visits them. */
  function Ascending(s: set<string>): (ks: seq<string>)
    ensures StrictlyAscending(ks)
    ensures forall k :: k in ks <==> k in s
    decreases |s|
  {
    if s == {} then []
    else
      var k := Least(s);
      var rest := Ascending(s - {k});
      assert forall i :: 0 <= i < |rest| ==> rest[i] in s - {k};
      [k] + rest
  }

  lemma FirstIsIn(a: seq<string>)
    requires a != []
    ensures exists k :: k in a && k == a[0]
  {
    assert a[0] in a;
  }

  /** A strictly ascending listing is determined by its elements. */
  lemma {:induction false} AscendingUnique(a: seq<string>, b: seq<string>)
    requires StrictlyAscending(a) && StrictlyAscending(b)
    requires forall k :: k in a <==> k in b
    ensures a == b
  {
    if a == [] {
      if b != [] { FirstIsIn(b); }
    } else {
      FirstIsIn(a);
      assert a[0] == b[0] by {
        assert a[0] in b && b[0] in a;
        if a[0] != b[0] {
          assert Less(b[0], a[0]) && Less(a[0], b[0]);
          LessAsymmetric(a[0], b[0]);
        }
      }
      forall k ensures k in a[1..] <==> k in b[1..] {
        LessIrreflexive(a[0]);
        assert k in a <==> k == a[0] || k in a[1..];
        assert k in b <==> k == b[0] || k in b[1..];
        assert a[0] !in a[1..] && b[0] !in b[1..];
      }
      AscendingUnique(a[1..], b[1..]);
      assert a == [a[0]] + a[1..] && b == [b[0]] + b[1..];
    }
  }
}
