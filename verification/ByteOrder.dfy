// The order in which the store sorts keys, and numbers written so that they sort
// (`write_big_endian` and `read_big_endian` in src/fs/key.rs).
module ByteOrder {
  import opened Types

  type Bytes = seq<Byte>

  // Lexicographic order: a proper prefix comes before its extensions.
  predicate Before(a: Bytes, b: Bytes) {
    b != [] && (a == [] || a[0] < b[0] || (a[0] == b[0] && Before(a[1..], b[1..])))
  }

  lemma {:induction false} NeverBeforeItself(a: Bytes)
    ensures !Before(a, a)
  {
    if a != [] { NeverBeforeItself(a[1..]); }
  }

  lemma {:induction false} OneComesFirst(a: Bytes, b: Bytes)
    ensures a == b || Before(a, b) || Before(b, a)
  {
    if a != [] && b != [] {
      OneComesFirst(a[1..], b[1..]);
      if a[0] == b[0] && a[1..] == b[1..] {
        assert a == [a[0]] + a[1..];
        assert b == [b[0]] + b[1..];
      }
    }
  }

  // Two keys compare by their equally long beginnings first, whatever follows.
  lemma {:induction false} BeginningsDecide(x: Bytes, y: Bytes, s: Bytes, t: Bytes)
    requires |x| == |y|
    ensures Before(x + s, y + t) <==> Before(x, y) || (x == y && Before(s, t))
  {
    if x == [] {
      assert x + s == s && y + t == t;
    } else {
      assert (x + s)[1..] == x[1..] + s && (y + t)[1..] == y[1..] + t;
      BeginningsDecide(x[1..], y[1..], s, t);
      assert x == [x[0]] + x[1..] && y == [y[0]] + y[1..];
    }
  }

  function Pow256(n: nat): (p: nat)
    ensures p >= 1
  {
    if n == 0 then 1 else 256 * Pow256(n - 1)
  }

  // The `n` low bytes of `v`, the highest first.
  function BigEndian(v: nat, n: nat): (r: Bytes)
    ensures |r| == n
  {
    if n == 0 then [] else BigEndian(v / 256, n - 1) + [(v % 256) as Byte]
  }

  function FromBigEndian(b: Bytes): nat {
    if b == [] then 0 else 256 * FromBigEndian(b[..|b| - 1]) + b[|b| - 1] as nat
  }

  lemma {:induction false} ReadAfterWrite(v: nat, n: nat)
    requires v < Pow256(n)
    ensures FromBigEndian(BigEndian(v, n)) == v
  {
    if n > 0 {
      ReadAfterWrite(v / 256, n - 1);
      assert BigEndian(v, n)[..n - 1] == BigEndian(v / 256, n - 1);
    }
  }

  lemma {:induction false} WriteAfterRead(b: Bytes)
    ensures FromBigEndian(b) < Pow256(|b|)
    ensures BigEndian(FromBigEndian(b), |b|) == b
  {
    if b != [] {
      var n := |b| - 1;
      WriteAfterRead(b[..n]);
      assert b == b[..n] + [b[n]];
    }
  }

  // Written numbers sort like the numbers.
  lemma {:induction false} BigEndianOrder(v: nat, w: nat, n: nat)
    requires v < Pow256(n) && w < Pow256(n)
    ensures Before(BigEndian(v, n), BigEndian(w, n)) <==> v < w
    ensures BigEndian(v, n) == BigEndian(w, n) <==> v == w
  {
    ReadAfterWrite(v, n);
    ReadAfterWrite(w, n);
    if n > 0 {
      var x, y := BigEndian(v / 256, n - 1), BigEndian(w / 256, n - 1);
      BigEndianOrder(v / 256, w / 256, n - 1);
      BeginningsDecide(x, y, [(v % 256) as Byte], [(w % 256) as Byte]);
    }
  }

  // So they do in front of any suffixes.
  lemma {:induction false} NumbersDecide(v: nat, w: nat, n: nat, s: Bytes, t: Bytes)
    requires v < Pow256(n) && w < Pow256(n)
    ensures Before(BigEndian(v, n) + s, BigEndian(w, n) + t) <==> v < w || (v == w && Before(s, t))
  {
    BigEndianOrder(v, w, n);
    BeginningsDecide(BigEndian(v, n), BigEndian(w, n), s, t);
  }
}
