/** Types and small helpers shared by every component of the master. */
module EcTypes {
  datatype Option<+T> = None | Some(value: T)

  /** A C `uint8`. */
  type byte = b: int | 0 <= b < 0x100

  /** A C `uint16`. */
  type uint16 = w: int | 0 <= w < 0x1_0000

  /** Sync managers of a slave. */
  const EC_MAXSM: nat := 8

  /** The error for a mailbox of another protocol. */
  const PACKET_ERROR: int := -3

  /** The value a C `int32` holds after the low 32 bits of `x` are stored in it. */
  function Int32(x: int): (r: int)
    ensures -0x8000_0000 <= r < 0x8000_0000
    ensures -0x8000_0000 <= x < 0x8000_0000 ==> r == x
  {
    (x + 0x8000_0000) % 0x1_0000_0000 - 0x8000_0000
  }

  /** C integer division by two, which truncates toward zero. */
  function Half(x: int): (r: int)
    ensures if x >= 0 then 2 * r <= x <= 2 * r + 1 else 2 * r - 1 <= x <= 2 * r
  {
    if x >= 0 then x / 2 else -(-x / 2)
  }

  function Sum(s: seq<nat>): nat {
    if s == [] then 0 else s[0] + Sum(s[1..])
  }

  lemma {:induction false} SumConcat(a: seq<nat>, b: seq<nat>)
    ensures Sum(a + b) == Sum(a) + Sum(b)
  {
    if a == [] {
      assert a + b == b;
    } else {
      assert (a + b)[1..] == a[1..] + b;
      SumConcat(a[1..], b);
    }
  }

  function Lo(w: nat): (b: byte) { w % 0x100 }

  function Hi(w: nat): (b: byte) { (w / 0x100) % 0x100 }

  /** Reads the little-endian 16-bit word at `a`. */
  function Word(s: seq<byte>, a: nat): (w: uint16)
    requires a + 1 < |s|
  {
    s[a] as int + 0x100 * (s[a + 1] as int)
  }

  /** The next element goes from what is left to what is done. */
  lemma {:induction false} Shift<T>(done: seq<T>, next: T, rest: seq<T>)
    ensures done + ([next] + rest) == (done + [next]) + rest
  {
  }

  lemma {:induction false} SmallMod(n: nat, m: nat)
    requires n < m
    ensures n % m == n
  {
  }

  /** The remainder is the one that the division leaves. */
  lemma {:induction false} ModIs(x: nat, n: nat, q: nat, r: nat)
    requires 0 < n && x == n * q + r && r < n
    ensures x % n == r
  {
    assert n * (x / n) + x % n == x;
    if x / n > q {
      MultiplesApart(n, q, x / n);
    } else if x / n < q {
      MultiplesApart(n, x / n, q);
    }
  }

  lemma {:induction false} MultiplesApart(n: nat, a: nat, b: nat)
    requires a < b
    ensures n * a + n <= n * b
    decreases b - a
  {
    if a + 1 < b {
      MultiplesApart(n, a, b - 1);
    }
    assert n * b == n * (b - 1) + n;
  }
}
