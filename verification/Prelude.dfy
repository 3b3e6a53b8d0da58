/** Bytes, big-endian integers and a few sequence facts shared by every module. */
module Prelude {

  type byte = b: int | 0 <= b < 256
  type bytes = seq<byte>

  datatype Option<+T> = None | Some(value: T)

  datatype Result<+T, +E> = Ok(ok: T) | Err(err: E)

  const U16: nat := 0x1_0000
  const U32: nat := 0x1_0000_0000
  const U64: nat := 0x1_0000_0000_0000_0000

  /** No element is listed twice. */
  predicate Distinct<T(==)>(s: seq<T>) {
    forall i, j | 0 <= i < j < |s| :: s[i] != s[j]
  }

  /** An expiry in epoch milliseconds has passed; 0 means never. */
  predicate Past(exp: nat, now: nat) {
    exp != 0 && exp <= now
  }

  // --- Narrowing casts ---

  /** `as u16` */
  function AsU16(n: nat): (m: nat)
    ensures m < U16 && m <= n && (n < U16 <==> m == n)
  {
    n % 0x1_0000
  }

  /** `as u32` */
  function AsU32(n: nat): (m: nat)
    ensures m < U32 && m <= n && (n < U32 <==> m == n)
  {
    n % 0x1_0000_0000
  }

  // --- Big-endian integers: `to_be_bytes` and `from_be_bytes` ---

  function Be16(n: nat): (s: bytes)
    requires n < U16
    ensures |s| == 2
  {
    [n / 256, n % 256]
  }

  function De16(s: bytes): (n: nat)
    requires |s| == 2
    ensures n < U16
  {
    s[0] as int * 256 + s[1]
  }

  function Be32(n: nat): (s: bytes)
    requires n < U32
    ensures |s| == 4
  {
    Be16(n / 0x1_0000) + Be16(n % 0x1_0000)
  }

  function De32(s: bytes): (n: nat)
    requires |s| == 4
    ensures n < U32
  {
    De16(s[..2]) * 0x1_0000 + De16(s[2..])
  }

  function Be64(n: nat): (s: bytes)
    requires n < U64
    ensures |s| == 8
  {
    Be32(n / 0x1_0000_0000) + Be32(n % 0x1_0000_0000)
  }

  function De64(s: bytes): (n: nat)
    requires |s| == 8
    ensures n < U64
  {
    De32(s[..4]) * 0x1_0000_0000 + De32(s[4..])
  }

  lemma Inverse16(n: nat, s: bytes)
    ensures n < U16 ==> De16(Be16(n)) == n
    ensures |s| == 2 ==> Be16(De16(s)) == s
  {
  }

  lemma Inverse32(n: nat, s: bytes)
    ensures n < U32 ==> De32(Be32(n)) == n
    ensures |s| == 4 ==> Be32(De32(s)) == s
  {
    if n < U32 {
      Cut2(Be16(n / 0x1_0000), Be16(n % 0x1_0000));
      Inverse16(n / 0x1_0000, []);
      Inverse16(n % 0x1_0000, []);
    }
    if |s| == 4 {
      Inverse16(0, s[..2]);
      Inverse16(0, s[2..]);
      DivModOf(De16(s[..2]), U16, De16(s[2..]));
      Cut2(s[..2], s[2..]);
      assert s == s[..2] + s[2..];
    }
  }

  lemma Inverse64(n: nat, s: bytes)
    ensures n < U64 ==> De64(Be64(n)) == n
    ensures |s| == 8 ==> Be64(De64(s)) == s
  {
    if n < U64 {
      Cut2(Be32(n / 0x1_0000_0000), Be32(n % 0x1_0000_0000));
      Inverse32(n / 0x1_0000_0000, []);
      Inverse32(n % 0x1_0000_0000, []);
    }
    if |s| == 8 {
      Inverse32(0, s[..4]);
      Inverse32(0, s[4..]);
      DivModOf(De32(s[..4]), U32, De32(s[4..]));
      assert s == s[..4] + s[4..];
    }
  }

  lemma DivModOf(q: nat, d: nat, r: nat)
    requires r < d
    requires d == U16 || d == U32
    ensures (q * d + r) / d == q && (q * d + r) % d == r
  {
  }

  /** The first byte is the most significant one. */
  lemma MostSignificantFirst(s: bytes)
    ensures |s| == 2 ==> De16(s) == 256 * s[0] as int + s[1]
    ensures |s| == 4 ==> De32(s) == 256 * (256 * (256 * s[0] as int + s[1]) + s[2]) + s[3]
    ensures |s| == 8 ==> De64(s) == 0x1_0000_0000 * De32(s[..4]) + De32(s[4..])
  {
  }

  /** The bytes of a text; every text of the protocol is ASCII. */
  function Ascii(s: string): (b: bytes)
    ensures |b| == |s| && forall i | 0 <= i < |s| && s[i] as int < 128 :: b[i] == s[i] as int
  {
    seq(|s|, i requires 0 <= i < |s| => s[i] as int % 256)
  }

  // --- Sequence facts, stated once over any element type ---

  lemma Assoc<T>(a: seq<T>, b: seq<T>, c: seq<T>)
    ensures (a + b) + c == a + (b + c)
  {
  }

  lemma Cut2<T>(a: seq<T>, b: seq<T>)
    ensures (a + b)[..|a|] == a && (a + b)[|a|..] == b
  {
  }

  lemma Cut3<T>(a: seq<T>, b: seq<T>, c: seq<T>)
    ensures var s := a + b + c; var n := |a| + |b|;
            s[..|a|] == a && s[|a|..n] == b && s[n..] == c
  {
  }

  lemma Glue2<T>(s: seq<T>, m: nat)
    requires m <= |s|
    ensures s == s[..m] + s[m..]
  {
  }

  lemma Glue3<T>(s: seq<T>, m: nat, n: nat)
    requires m <= n <= |s|
    ensures s == s[..m] + s[m..n] + s[n..]
  {
  }

  function Concat<T>(ps: seq<seq<T>>): (s: seq<T>)
  {
    if ps == [] then [] else ps[0] + Concat(ps[1..])
  }

  lemma ConcatOne<T>(p: seq<T>)
    ensures Concat([p]) == p
  {
    assert [p][1..] == [] && p + [] == p;
  }

  lemma {:induction false} ConcatAppend<T>(a: seq<seq<T>>, b: seq<seq<T>>)
    ensures Concat(a + b) == Concat(a) + Concat(b)
  {
    if a == [] {
      assert a + b == b;
    } else {
      ConcatAppend(a[1..], b);
      assert (a + b)[0] == a[0] && (a + b)[1..] == a[1..] + b;
      Assoc(a[0], Concat(a[1..]), Concat(b));
    }
  }
}
