/** Words as bytes, and rounding up to whole words. */
module Words {
  import opened Bytes
  import opened Sequences

  // ---------- rounding up ----------

  /** round_up_bits(n, 64): in 64-bit arithmetic n * 8 may wrap. */
  function RoundUpBits(n: Word): Word
  {
    (n * 8 % TWO_64 + 63) % TWO_64 / 64 * 64 / 8
  }

  /** The next multiple of eight. */
  function RoundUp8(n: nat): (r: nat)
    ensures n <= r < n + 8 && r % 8 == 0
  {
    (n + 7) / 8 * 8
  }

  lemma BitsAndBytes(n: nat)
    ensures (n * 8 + 63) / 64 == (n + 7) / 8
  {
  }

  lemma RoundsUp(n: Word)
    requires n <= TWO_61 - 8
    ensures RoundUpBits(n) == RoundUp8(n)
  {
    assert n * 8 % TWO_64 == n * 8 && (n * 8 + 63) % TWO_64 == n * 8 + 63;
    BitsAndBytes(n);
  }

  lemma StaysBelow(m: nat)
    requires m < TWO_64
    ensures m / 64 * 64 / 8 < TWO_61
  {
  }

  lemma Wraps(n: Word)
    requires n > TWO_61 - 8
    ensures RoundUpBits(n) < TWO_61 <= RoundUp8(n)
  {
    StaysBelow((n * 8 % TWO_64 + 63) % TWO_64);
  }

  /** It rounds up to whole words exactly up to this length; beyond it wraps. */
  lemma RoundUpBitsIff(n: Word)
    ensures RoundUpBits(n) == RoundUp8(n) <==> n <= TWO_61 - 8
  {
    hide RoundUpBits, RoundUp8;
    if n <= TWO_61 - 8 {
      RoundsUp(n);
    } else {
      Wraps(n);
    }
  }

  // ---------- fields ----------

  /** A high and a low part of a number. */
  lemma Parts(high: nat, low: nat, p: nat)
    requires low < p
    ensures (high * p + low) / p == high && (high * p + low) % p == low
  {
    var v := high * p + low;
    Divided(v, p);
    Quotient(high, low, p, v / p, v % p);
  }

  lemma Divided(v: nat, p: nat)
    requires p > 0
    ensures v == v / p * p + v % p && v % p < p
  {
  }

  lemma Quotient(high: nat, low: nat, p: nat, q: nat, r: nat)
    requires low < p && r < p && high * p + low == q * p + r
    ensures q == high && r == low
  {
    if high > q {
      Spread(high, q, p);
    } else if q > high {
      Spread(q, high, p);
    }
  }

  lemma Spread(more: nat, less: nat, p: nat)
    requires more > less
    ensures more * p >= less * p + p
  {
    assert more * p == less * p + (more - less) * p;
    assert (more - less) * p == p + (more - less - 1) * p;
  }

  /** A remainder below b, times a, and one below a stay below their product. */
  lemma Below(a: nat, b: nat, s: nat, r: nat)
    requires r < a && s < b
    ensures s * a + r < a * b
  {
    assert a * b == s * a + (b - s) * a;
    assert (b - s) * a == a + (b - s - 1) * a;
  }

  /** Dividing twice. */
  lemma DividedTwice(w: nat, a: nat, b: nat)
    requires a > 0 && b > 0
    ensures a * b > 0 && w / a / b == w / (a * b)
  {
    var q := w / a;
    var p, s, r := q / b, q % b, w % a;
    Divided(w, a);
    Divided(q, b);
    Below(a, b, s, r);
    assert q * a == p * b * a + s * a;
    assert p * b * a == p * (a * b);
    Parts(p, s * a + r, a * b);
  }

  // ---------- big-endian words ----------

  /** The byte of value n, counted up to. */
  function ToByte(n: nat): (b: Byte)
    requires n < 256
    ensures b as nat == n
  {
    if n == 0 then 0 else ToByte(n - 1) + 1
  }

  /** The n low bytes of w, the most significant first. */
  function BytesOf(w: nat, n: nat): (s: seq<Byte>)
    ensures |s| == n
  {
    if n == 0 then [] else BytesOf(w / 256, n - 1) + [ToByte(w % 256)]
  }

  function ValueOf(s: seq<Byte>): nat
  {
    if s == [] then 0 else ValueOf(s[..|s| - 1]) * 256 + s[|s| - 1] as nat
  }

  function Power(n: nat): (p: nat)
    ensures p > 0
  {
    if n == 0 then 1 else 256 * Power(n - 1)
  }

  lemma {:induction false} ValueOfBytes(w: nat, n: nat)
    requires w < Power(n)
    ensures ValueOf(BytesOf(w, n)) == w
  {
    if n > 0 {
      assert w / 256 < Power(n - 1);
      ValueOfBytes(w / 256, n - 1);
      var s := BytesOf(w, n);
      assert s[..|s| - 1] == BytesOf(w / 256, n - 1);
    }
  }

  lemma {:induction false} ValueBound(s: seq<Byte>)
    ensures ValueOf(s) < Power(|s|)
  {
    if s != [] {
      ValueBound(s[..|s| - 1]);
    }
  }

  lemma Power8()
    ensures Power(8) == TWO_64
  {
    assert Power(4) == TWO_32;
    assert Power(8) == 256 * (256 * (256 * (256 * Power(4))));
  }

  /** The eight bytes of a word as they stand in a file. */
  function Be64(w: Word): (s: seq<Byte>)
    ensures |s| == 8
  {
    BytesOf(w, 8)
  }

  function ReadBe64(buf: seq<Byte>, i: nat): Word
    requires i + 8 <= |buf|
  {
    ValueBound(buf[i..i + 8]);
    Power8();
    ValueOf(buf[i..i + 8])
  }

  lemma Be64RoundTrip(buf: seq<Byte>, i: nat, w: Word)
    requires i + 8 <= |buf| && buf[i..i + 8] == Be64(w)
    ensures ReadBe64(buf, i) == w
  {
    Power8();
    ValueOfBytes(w, 8);
  }

  /** The eight bytes of a word as they stand in a little-endian machine's memory. */
  function Le64(w: Word): (s: seq<Byte>)
    ensures |s| == 8
  {
    Reverse(Be64(w))
  }

  // ---------- where the bytes are ----------

  /** Each byte from the number: the most significant one is the first. */
  lemma {:induction false} BytesAt(w: nat, n: nat, j: nat)
    requires j < n
    ensures BytesOf(w, n)[n - 1 - j] as nat == w / Power(j) % 256
  {
    if j > 0 {
      BytesAt(w / 256, n - 1, j - 1);
      DividedTwice(w, 256, Power(j - 1));
    }
  }

  /** The low byte of a number with a high and a low part is that of the low part. */
  lemma LowByte(h: nat, p: nat, l: nat)
    ensures var w := h * (256 * p) + l; w / 256 == h * p + l / 256 && w % 256 == l % 256
  {
    assert h * (256 * p) == h * p * 256;
    Parts(h * p + l / 256, l % 256, 256);
  }

  /** The bytes of a number with a high and a low part. */
  lemma {:induction false} BytesConcat(h: nat, n: nat, l: nat, m: nat)
    requires l < Power(m)
    ensures BytesOf(h * Power(m) + l, n + m) == BytesOf(h, n) + BytesOf(l, m)
  {
    hide ToByte;
    if m > 0 {
      var p := Power(m - 1);
      LowByte(h, p, l);
      BytesConcat(h, n, l / 256, m - 1);
    }
  }

  /** The eight bytes in a file. */
  lemma Be64Bytes(w: Word)
    ensures var s := Be64(w);
      && s[0] as nat == w / 0x100_0000_0000_0000 && s[1] as nat == w / 0x1_0000_0000_0000 % 256
      && s[2] as nat == w / 0x100_0000_0000 % 256 && s[3] as nat == w / 0x1_0000_0000 % 256
      && s[4] as nat == w / 0x100_0000 % 256 && s[5] as nat == w / 0x1_0000 % 256
      && s[6] as nat == w / 0x100 % 256 && s[7] as nat == w % 256
  {
    hide BytesOf;
    Powers();
    BytesAt(w, 8, 0);
    BytesAt(w, 8, 1);
    BytesAt(w, 8, 2);
    BytesAt(w, 8, 3);
    BytesAt(w, 8, 4);
    BytesAt(w, 8, 5);
    BytesAt(w, 8, 6);
    BytesAt(w, 8, 7);
  }

  lemma Powers()
    ensures Power(0) == 1 && Power(1) == 0x100 && Power(2) == 0x1_0000 && Power(3) == 0x100_0000
    ensures Power(4) == 0x1_0000_0000 && Power(5) == 0x100_0000_0000 && Power(6) == 0x1_0000_0000_0000
    ensures Power(7) == 0x100_0000_0000_0000
  {
    assert Power(2) == 256 * Power(1);
    assert Power(3) == 256 * Power(2);
    assert Power(4) == 256 * Power(3);
    assert Power(5) == 256 * Power(4);
    assert Power(6) == 256 * Power(5);
    assert Power(7) == 256 * Power(6);
  }

  /** In a little-endian machine's memory they stand the other way around. */
  lemma Le64Bytes(w: Word, j: nat)
    requires j < 8
    ensures Le64(w)[j] as nat == w / Power(j) % 256
  {
    hide BytesOf, Power;
    BytesAt(w, 8, j);
  }

  function Zeros(n: nat): (s: seq<Byte>)
    ensures |s| == n && forall i :: 0 <= i < n ==> s[i] == 0
  {
    seq(n, _ => 0)
  }
}
