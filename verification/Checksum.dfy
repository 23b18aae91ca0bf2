/** The Internet checksum of checksum.c: 16-bit words added in a 32-bit accumulator and
    folded, against the one's complement sum of section 1 of RFC 1071. */
module Checksum {
  import opened Basics

  type Word = x: nat | x < 0x10000

  /** A 16-bit load of the bytes `a`, `b` on a big- or little-endian machine. */
  function Load(big: bool, a: Byte, b: Byte): Word {
    if big then 256 * a + b else a + 256 * b
  }

  /** The 16-bit words of a buffer; an odd last byte is padded with zero. */
  function Words(big: bool, s: seq<Byte>): seq<Word> {
    if |s| == 0 then []
    else if |s| == 1 then [Load(big, s[0], 0)]
    else [Load(big, s[0], s[1])] + Words(big, s[2..])
  }

  function Sum(ws: seq<Word>): nat {
    if ws == [] then 0 else ws[0] + Sum(ws[1..])
  }

  /** One's complement addition: the carry goes round to the low end. */
  function OnesAdd(a: Word, b: Word): Word {
    if a + b < 0x10000 then a + b else a + b - 0xFFFF
  }

  function OnesSum(acc: Word, ws: seq<Word>): Word
    decreases |ws|
  {
    if ws == [] then acc else OnesSum(OnesAdd(acc, ws[0]), ws[1..])
  }

  /** The fold loop of `checksum`. */
  function Fold(n: nat): Word {
    if n < 0x10000 then n else Fold(n % 0x10000 + n / 0x10000)
  }

  /** The representative that both reach: zero only for zero, else 1 to 0xFFFF. */
  function Canon(n: nat): Word {
    if n == 0 then 0 else (n - 1) % 0xFFFF + 1
  }

  lemma {:induction false} FoldIsCanon(n: nat)
    ensures Fold(n) == Canon(n)
  {
    if n >= 0x10000 {
      FoldIsCanon(n % 0x10000 + n / 0x10000);
      assert n == 0x10000 * (n / 0x10000) + n % 0x10000;
      CanonHigh(n / 0x10000, n % 0x10000);
    }
  }

  /** A carry out of 16 bits may be added at the low end. */
  lemma CanonHigh(hi: nat, rest: nat)
    ensures Canon(0x10000 * hi + rest) == Canon(hi + rest)
  {
    assert 0x10000 * hi + rest == 0xFFFF * hi + (hi + rest);
    if hi + rest > 0 {
      assert (0xFFFF * hi + (hi + rest - 1)) % 0xFFFF == (hi + rest - 1) % 0xFFFF;
    }
  }

  lemma OnesAddCanon(n: nat, w: Word)
    ensures OnesAdd(Canon(n), w) == Canon(n + w)
  {
    if n > 0 {
      var q := (n - 1) / 0xFFFF;
      assert n == 0xFFFF * q + Canon(n);
      assert n + w - 1 == 0xFFFF * q + (Canon(n) + w - 1);
      assert (n + w - 1) % 0xFFFF == (Canon(n) + w - 1) % 0xFFFF;
    }
  }

  lemma {:induction false} OnesSumCanon(n: nat, ws: seq<Word>)
    ensures OnesSum(Canon(n), ws) == Canon(n + Sum(ws))
    decreases |ws|
  {
    if ws != [] {
      OnesAddCanon(n, ws[0]);
      OnesSumCanon(n + ws[0], ws[1..]);
    }
  }

  /** Folding the plain sum gives the one's complement sum, for any number of words. */
  lemma FoldIsOnesSum(ws: seq<Word>)
    ensures Fold(Sum(ws)) == OnesSum(0, ws)
  {
    FoldIsCanon(Sum(ws));
    OnesSumCanon(0, ws);
  }

  /** A 32-bit accumulator is as good exactly when it does not overflow: fewer than 0xFFFF
      lost carries always show in the result. */
  lemma WrapLosesCarries(n: nat)
    requires n < 0xFFFF * WORD
    ensures Fold(n % WORD) == Fold(n) <==> n < WORD
  {
    FoldIsCanon(n);
    FoldIsCanon(n % WORD);
    var c := n / WORD;
    assert n == WORD * c + n % WORD;
    CanonHigh(0x10000 * c, n % WORD);
    assert WORD * c == 0x10000 * (0x10000 * c);
    CanonHigh(c, n % WORD);
    if c > 0 { CanonShift(n % WORD, c); }
  }

  lemma CanonShift(n: nat, c: nat)
    requires 0 < c < 0xFFFF
    ensures Canon(n + c) != Canon(n)
  {
    if n > 0 {
      var q := (n - 1) / 0xFFFF;
      assert n == 0xFFFF * q + Canon(n);
      assert (n + c - 1) % 0xFFFF == (Canon(n) + c - 1) % 0xFFFF;
    }
  }

  lemma {:induction false} SumBound(ws: seq<Word>)
    ensures Sum(ws) <= 0xFFFF * |ws|
  {
    if ws != [] { SumBound(ws[1..]); }
  }

  lemma {:induction false} WordsLength(big: bool, s: seq<Byte>)
    ensures |Words(big, s)| == (|s| + 1) / 2
  {
    if |s| >= 2 { WordsLength(big, s[2..]); }
  }

  /** Splitting at an even offset is additive. */
  lemma {:induction false} WordsAppend(big: bool, a: seq<Byte>, b: seq<Byte>)
    requires |a| % 2 == 0
    ensures Words(big, a + b) == Words(big, a) + Words(big, b)
    decreases |a|
  {
    if a == [] {
      assert a + b == b;
    } else {
      assert (a + b)[2..] == a[2..] + b;
      WordsAppend(big, a[2..], b);
    }
  }

  lemma {:induction false} SumAppend(a: seq<Word>, b: seq<Word>)
    ensures Sum(a + b) == Sum(a) + Sum(b)
    decreases |a|
  {
    if a == [] {
      assert a + b == b;
    } else {
      assert (a + b)[1..] == a[1..] + b;
      SumAppend(a[1..], b);
    }
  }

  lemma WrapAdds(a: nat, b: nat, c: nat, d: nat, e: nat)
    ensures (((((0 + a) % WORD + b) % WORD + c) % WORD + d) % WORD + e) % WORD == (a + b + c + d + e) % WORD
  {
    WrapAdd(a, b);
    WrapAdd(a + b, c);
    WrapAdd(a + b + c, d);
    WrapAdd(a + b + c + d, e);
  }

  lemma SumStep(big: bool, s: seq<Byte>)
    requires s != []
    ensures |s| > 1 ==> Sum(Words(big, s)) == Load(big, s[0], s[1]) + Sum(Words(big, s[2..]))
    ensures |s| == 1 ==> Sum(Words(big, s)) == Load(big, s[0], 0)
  {
    if |s| > 1 {
      assert Words(big, s)[1..] == Words(big, s[2..]);
    } else {
      assert Words(big, s)[1..] == [];
    }
  }

  /** sum_every_16bits */
  method SumEvery16Bits(big: bool, s: seq<Byte>) returns (sum: nat)
    ensures sum == Sum(Words(big, s)) % WORD
  {
    sum := 0;
    var rest := s;
    ghost var total: nat := 0;
    while |rest| > 1
      invariant sum == total % WORD && total + Sum(Words(big, rest)) == Sum(Words(big, s))
    {
      var w := Load(big, rest[0], rest[1]);
      SumStep(big, rest);
      WrapAdd(total, w);
      sum := (sum + w) % WORD;
      total := total + w;
      rest := rest[2..];
    }
    if |rest| > 0 {
      SumStep(big, rest);
      var last: nat := rest[0];
      var w := if big then 256 * last else last;
      WrapAdd(total, w);
      sum := (sum + w) % WORD;
    }
  }

  /** checksum */
  method Compute(big: bool, s: seq<Byte>, start: nat) returns (c: Word)
    requires start < WORD
    ensures c == 0xFFFF - Fold((start + Sum(Words(big, s))) % WORD)
  {
    var sum: nat := SumEvery16Bits(big, s);
    WrapAdd(Sum(Words(big, s)), start);
    sum := (start + sum) % WORD;
    ghost var n := sum;
    while sum / 0x10000 != 0
      invariant Fold(sum) == Fold(n)
      decreases sum
    {
      sum := sum % 0x10000 + sum / 0x10000;
    }
    c := 0xFFFF - sum;
  }

  /** The checksum of a buffer whose words sum to less than 2^32 is the complement of their
      one's complement sum, and for any buffer of an int's length only then. */
  lemma ChecksumIsComplement(big: bool, s: seq<Byte>, start: nat)
    requires start < WORD && |s| < 0x8000_0000
    ensures 0xFFFF - Fold((start + Sum(Words(big, s))) % WORD) == 0xFFFF - OnesSum(Fold(start), Words(big, s))
       <==> start + Sum(Words(big, s)) < WORD
  {
    var ws := Words(big, s);
    WordsLength(big, s);
    SumBound(ws);
    WrapLosesCarries(start + Sum(ws));
    FoldIsCanon(start);
    FoldIsCanon(start + Sum(ws));
    OnesSumCanon(start, ws);
  }

  /** With the checksum the code computes stored in a field that was zero, the code finds the buffer
      right, whatever its length. */
  lemma StoredChecksumVerifies(big: bool, s: seq<Byte>, k: nat, a: Byte, b: Byte)
    requires k % 2 == 0 && k + 2 <= |s| && s[k] == 0 && s[k + 1] == 0
    requires Load(big, a, b) == 0xFFFF - Fold(Sum(Words(big, s)) % WORD)
    ensures 0xFFFF - Fold(Sum(Words(big, s[k := a][k + 1 := b])) % WORD) == 0
  {
    StoredSum(big, s, k, a, b);
    WrapAdd(Sum(Words(big, s)), Load(big, a, b));
    ComplementFolds(Sum(Words(big, s)) % WORD);
  }

  lemma StoredSum(big: bool, s: seq<Byte>, k: nat, a: Byte, b: Byte)
    requires k % 2 == 0 && k + 2 <= |s| && s[k] == 0 && s[k + 1] == 0
    ensures Sum(Words(big, s[k := a][k + 1 := b])) == Sum(Words(big, s)) + Load(big, a, b)
  {
    var l, r := s[..k], s[k + 2..];
    assert s == l + ([0, 0] + r);
    assert s[k := a][k + 1 := b] == l + ([a, b] + r);
    FieldSum(big, l, 0, 0, r);
    FieldSum(big, l, a, b, r);
  }

  /** Adding the complement of its fold makes a 32-bit sum fold to all ones. */
  lemma ComplementFolds(n: nat)
    requires n < WORD
    ensures Fold((n + (0xFFFF - Fold(n))) % WORD) == 0xFFFF
  {
    ComplementFits(n);
    ComplementCarries(n);
    NoWrap(n + (0xFFFF - Fold(n)));
  }

  /** It never overflows: in the last 65536 sums below 2^32 the fold is the lower half. */
  lemma ComplementFits(n: nat)
    requires n < WORD
    ensures n + (0xFFFF - Fold(n)) < WORD
  {
    FoldIsCanon(n);
    if n >= 0xFFFF_0000 {
      var lo := n - 0xFFFF_0000;
      CanonHigh(0xFFFF, lo);
      CanonShort(lo);
    }
  }

  lemma CanonShort(lo: nat)
    requires lo < 0x10000
    ensures Canon(0xFFFF + lo) >= lo
  {
    if lo > 0 { assert 0xFFFF + lo - 1 == 0xFFFF + (lo - 1); }
  }

  lemma ComplementCarries(n: nat)
    ensures Fold(n + (0xFFFF - Fold(n))) == 0xFFFF
  {
    FoldIsCanon(n);
    CanonComplement(n);
    FoldIsCanon(n + (0xFFFF - Canon(n)));
  }

  lemma CanonComplement(n: nat)
    ensures Canon(n + (0xFFFF - Canon(n))) == 0xFFFF
  {
    if n > 0 {
      var q := (n - 1) / 0xFFFF;
      assert n == 0xFFFF * q + Canon(n);
      assert (0xFFFF * q + 0xFFFE) % 0xFFFF == 0xFFFE;
    }
  }

  lemma FieldSum(big: bool, l: seq<Byte>, a: Byte, b: Byte, r: seq<Byte>)
    requires |l| % 2 == 0
    ensures Sum(Words(big, l + ([a, b] + r))) == Sum(Words(big, l)) + Load(big, a, b) + Sum(Words(big, r))
  {
    WordsAppend(big, l, [a, b] + r);
    SumAppend(Words(big, l), Words(big, [a, b] + r));
    SumStep(big, [a, b] + r);
    assert ([a, b] + r)[2..] == r;
  }

  // ----------------------------------------------------------- byte order

  /** A word with its bytes exchanged */
  function Swap(w: Word): Word { 256 * (w % 256) + w / 256 }

  lemma SwapOf(a: Byte, b: Byte)
    ensures Swap(256 * a + b) == a + 256 * b && Swap(a + 256 * b) == 256 * a + b
  {
    assert (256 * a + b) / 256 == a && (256 * b + a) / 256 == b;
  }

  lemma SwapComplement(w: Word)
    ensures 0xFFFF - Swap(w) == Swap(0xFFFF - w)
  {
    var a: nat, b: nat := w / 256, w % 256;
    SwapOf(a, b);
    SwapOf(255 - a, 255 - b);
    assert w == 256 * a + b && 0xFFFF - w == 256 * (255 - a) + (255 - b);
  }

  /** The words of the other order are, together, 256 times as much but for multiples of 0xFFFF. */
  lemma {:induction false} SumSwapped(s: seq<Byte>) returns (k: nat)
    ensures 256 * Sum(Words(true, s)) == Sum(Words(false, s)) + 0xFFFF * k
    ensures Sum(Words(true, s)) == 0 <==> Sum(Words(false, s)) == 0
    decreases |s|
  {
    k := 0;
    if |s| > 0 {
      SumStep(true, s);
      SumStep(false, s);
      k := s[0];
      if |s| > 1 {
        var j := SumSwapped(s[2..]);
        k := k + j;
      }
    }
  }

  lemma CanonUnique(m: nat, z: int, c: Word)
    requires m == 0xFFFF * z + c && m > 0 && c > 0
    ensures Canon(m) == c
  {
    assert m - 1 == 0xFFFF * z + (c - 1);
  }

  lemma CanonSwap(n: nat, m: nat, k: nat)
    requires 256 * n == m + 0xFFFF * k && (n == 0 <==> m == 0)
    ensures Canon(m) == Swap(Canon(n))
  {
    if n > 0 {
      var q, c := (n - 1) / 0xFFFF, Canon(n);
      assert n == 0xFFFF * q + c;
      assert c == 256 * (c / 256) + c % 256;
      assert 256 * c == 0xFFFF * (c / 256) + Swap(c);
      CanonUnique(m, 256 * q + c / 256 - k, Swap(c));
    }
  }

  /** Byte order independence, section 2 (B) of RFC 1071: the sums of the same bytes taken in the two
      orders are each other's bytes exchanged. */
  lemma ByteOrder(s: seq<Byte>)
    ensures Fold(Sum(Words(false, s))) == Swap(Fold(Sum(Words(true, s))))
  {
    var k := SumSwapped(s);
    FoldIsCanon(Sum(Words(true, s)));
    FoldIsCanon(Sum(Words(false, s)));
    CanonSwap(Sum(Words(true, s)), Sum(Words(false, s)), k);
  }

  lemma SameField(w: Word, v: Word, a: Byte, b: Byte)
    requires v == Swap(w)
    ensures Load(true, a, b) == 0xFFFF - w <==> Load(false, a, b) == 0xFFFF - v
  {
    SwapComplement(w);
    var c := 0xFFFF - w;
    SwapOf(a, b);
    SwapOf(c / 256, c % 256);
    assert c == 256 * (c / 256) + c % 256;
  }

  lemma SameStored(n: nat, m: nat, a: Byte, b: Byte)
    requires n < WORD && m < WORD && Fold(m) == Swap(Fold(n))
    ensures Load(true, a, b) == 0xFFFF - Fold(n % WORD) <==> Load(false, a, b) == 0xFFFF - Fold(m % WORD)
  {
    NoWrap(n);
    NoWrap(m);
    SameField(Fold(n), Fold(m), a, b);
  }

  /** So both kinds of machine put the same two bytes into the checksum field. */
  lemma SameBytes(s: seq<Byte>, a: Byte, b: Byte)
    requires Sum(Words(true, s)) < WORD && Sum(Words(false, s)) < WORD
    ensures Load(true, a, b) == 0xFFFF - Fold(Sum(Words(true, s)) % WORD)
       <==> Load(false, a, b) == 0xFFFF - Fold(Sum(Words(false, s)) % WORD)
  {
    ByteOrder(s);
    SameStored(Sum(Words(true, s)), Sum(Words(false, s)), a, b);
  }

  /** The example of section 3 of RFC 1071: sum 0xDDF2, or 0xF2DD in the other order */
  lemma RfcExample(big: bool, s: seq<Byte>)
    requires s == [0x00, 0x01, 0xF2, 0x03, 0xF4, 0xF5, 0xF6, 0xF7]
    ensures 0xFFFF - Fold(Sum(Words(big, s)) % WORD) == if big then 0x220D else 0x0D22
  {
    SumOfEight(big, 0x00, 0x01, 0xF2, 0x03, 0xF4, 0xF5, 0xF6, 0xF7);
    FoldOnce(if big then 0x2DDF0 else 0x1F2DC);
  }

  lemma FoldOnce(n: nat)
    requires n % 0x10000 + n / 0x10000 < 0x10000
    ensures Fold(n) == n % 0x10000 + n / 0x10000
  {
  }

  /** An odd buffer: 0x0102 and 0x0300, or 0x0201 and 0x0003 */
  lemma OddExample(big: bool, s: seq<Byte>)
    requires s == [0x01, 0x02, 0x03]
    ensures 0xFFFF - Fold(Sum(Words(big, s)) % WORD) == if big then 0xFBFD else 0xFDFB
  {
    SumStep(big, s);
    SumStep(big, s[2..]);
  }

  lemma SumOfEight(big: bool, a: Byte, b: Byte, c: Byte, d: Byte, e: Byte, f: Byte, g: Byte, h: Byte)
    ensures Sum(Words(big, [a, b, c, d, e, f, g, h]))
         == Load(big, a, b) + Load(big, c, d) + Load(big, e, f) + Load(big, g, h)
  {
    SumStep(big, [a, b, c, d, e, f, g, h]);
    assert [a, b, c, d, e, f, g, h][2..] == [c, d, e, f, g, h];
    SumStep(big, [c, d, e, f, g, h]);
    assert [c, d, e, f, g, h][2..] == [e, f, g, h];
    SumStep(big, [e, f, g, h]);
    assert [e, f, g, h][2..] == [g, h];
    SumStep(big, [g, h]);
    assert [g, h][2..] == [];
  }

  // ------------------------------------------------- TCP and UDP pseudo-header

  /** An IPv4 address as it lies in the packet. */
  datatype Addr = Addr(a: Byte, b: Byte, c: Byte, d: Byte)

  /** The 32-bit load of an address field. */
  function Load32(big: bool, x: Addr): nat {
    if big then 0x10000 * Load(big, x.a, x.b) + Load(big, x.c, x.d)
    else Load(big, x.a, x.b) + 0x10000 * Load(big, x.c, x.d)
  }

  /** htons of a 16-bit value: the load of its bytes in network order. */
  function Htons(big: bool, x: Word): Word {
    Load(big, x / 256, x % 256)
  }

  /** The words that precede the segment, section 3.1 of RFC 793. */
  function PseudoHeader(big: bool, src: Addr, dst: Addr, proto: Byte, len: Word): seq<Word> {
    [Load(big, src.a, src.b), Load(big, src.c, src.d), Load(big, dst.a, dst.b), Load(big, dst.c, dst.d),
     Load(big, 0, proto), Htons(big, len)]
  }

  /** What tcp_udp_checksum accumulates before the fold, without the 32-bit limit. */
  function Accumulated(big: bool, src: Addr, dst: Addr, proto: Byte, len: Word, s: seq<Byte>): nat {
    Load32(big, src) + Load32(big, dst) + Htons(big, proto) + Htons(big, len) + Sum(Words(big, s))
  }

  /** tcp_udp_checksum */
  method TcpUdp(big: bool, src: Addr, dst: Addr, proto: Byte, s: seq<Byte>) returns (c: Word)
    requires |s| < 0x10000
    ensures c == 0xFFFF - Fold(Accumulated(big, src, dst, proto, |s|, s) % WORD)
  {
    var a, b, p, n := Load32(big, src), Load32(big, dst), Htons(big, proto), Htons(big, |s|);
    var sum := (0 + a) % WORD;
    sum := (sum + b) % WORD;
    sum := (sum + p) % WORD;
    sum := (sum + n) % WORD;
    WrapAdds(a, b, p, n, Sum(Words(big, s)));
    c := Compute(big, s, sum);
  }

  /** tcp_udp_checksum computes the checksum over pseudo-header and segment exactly when its
      32-bit accumulator does not overflow. */
  lemma TcpUdpIffNoOverflow(big: bool, src: Addr, dst: Addr, proto: Byte, s: seq<Byte>)
    requires |s| < 0x10000
    ensures Fold(Accumulated(big, src, dst, proto, |s|, s) % WORD)
            == OnesSum(0, PseudoHeader(big, src, dst, proto, |s|) + Words(big, s))
       <==> Accumulated(big, src, dst, proto, |s|, s) < WORD
  {
    var n, ps, ws := Accumulated(big, src, dst, proto, |s|, s), PseudoHeader(big, src, dst, proto, |s|), Words(big, s);
    AccumulatedBound(big, src, dst, proto, s);
    PseudoSum(big, src, dst, proto, |s|, Sum(ws));
    WrappedFold(n, ps, ws);
  }

  lemma AccumulatedBound(big: bool, src: Addr, dst: Addr, proto: Byte, s: seq<Byte>)
    requires |s| < 0x10000
    ensures Accumulated(big, src, dst, proto, |s|, s) < 0xFFFF * WORD
  {
    WordsLength(big, s);
    SumBound(Words(big, s));
  }

  /** A 32-bit accumulator for a sum equal to that of the words folds right exactly below 2^32. */
  lemma WrappedFold(n: nat, ps: seq<Word>, ws: seq<Word>)
    requires n < 0xFFFF * WORD && Canon(n) == Canon(Sum(ps) + Sum(ws))
    ensures Fold(n % WORD) == OnesSum(0, ps + ws) <==> n < WORD
  {
    WrapLosesCarries(n);
    FoldIsCanon(n);
    FoldIsOnesSum(ps + ws);
    FoldIsCanon(Sum(ps + ws));
    SumAppend(ps, ws);
  }

  /** With its checksum stored in a field that was zero, tcp_udp_checksum finds every segment right, even
      when the checksum is not that of the standard. */
  lemma StoredTcpUdpVerifies(big: bool, src: Addr, dst: Addr, proto: Byte, s: seq<Byte>, k: nat, a: Byte, b: Byte)
    requires |s| < 0x10000 && k % 2 == 0 && k + 2 <= |s| && s[k] == 0 && s[k + 1] == 0
    requires Load(big, a, b) == 0xFFFF - Fold(Accumulated(big, src, dst, proto, |s|, s) % WORD)
    ensures 0xFFFF - Fold(Accumulated(big, src, dst, proto, |s|, s[k := a][k + 1 := b]) % WORD) == 0
  {
    StoredSum(big, s, k, a, b);
    WrapAdd(Accumulated(big, src, dst, proto, |s|, s), Load(big, a, b));
    ComplementFolds(Accumulated(big, src, dst, proto, |s|, s) % WORD);
  }

  lemma PseudoSum(big: bool, src: Addr, dst: Addr, proto: Byte, len: Word, rest: nat)
    ensures Canon(Load32(big, src) + Load32(big, dst) + Htons(big, proto) + Htons(big, len) + rest)
         == Canon(Sum(PseudoHeader(big, src, dst, proto, len)) + rest)
  {
    var a: nat, b: nat := Load(big, src.a, src.b), Load(big, src.c, src.d);
    var c: nat, d: nat := Load(big, dst.a, dst.b), Load(big, dst.c, dst.d);
    var hi: nat := (if big then a else b) + (if big then c else d);
    var lo: nat := (if big then b else a) + (if big then d else c);
    var tail := Htons(big, proto) + Htons(big, len);
    assert Htons(big, proto) == Load(big, 0, proto);
    SumOfSix(a, b, c, d, Load(big, 0, proto), Htons(big, len));
    CanonHigh(hi, lo + tail + rest);
  }

  lemma SumOfSix(a: Word, b: Word, c: Word, d: Word, e: Word, f: Word)
    ensures Sum([a, b, c, d, e, f]) == a + b + c + d + e + f
  {
    SumCons(a, [b, c, d, e, f]);
    SumCons(b, [c, d, e, f]);
    SumCons(c, [d, e, f]);
    SumCons(d, [e, f]);
    SumCons(e, [f]);
    SumCons(f, []);
    assert [a, b, c, d, e, f] == [a] + [b, c, d, e, f] && [b, c, d, e, f] == [b] + [c, d, e, f];
    assert [c, d, e, f] == [c] + [d, e, f] && [d, e, f] == [d] + [e, f] && [e, f] == [e] + [f] && [f] == [f] + [];
  }

  lemma SumCons(w: Word, ws: seq<Word>)
    ensures Sum([w] + ws) == w + Sum(ws)
  {
    assert ([w] + ws)[1..] == ws;
  }

  /** The pseudo-header as bytes in network order */
  function PseudoBytes(src: Addr, dst: Addr, proto: Byte, len: Word): seq<Byte> {
    [src.a, src.b, src.c, src.d, dst.a, dst.b, dst.c, dst.d, 0, proto, len / 256, len % 256]
  }

  lemma SumOfTwelve(big: bool, src: Addr, dst: Addr, proto: Byte, len: Word)
    ensures Sum(Words(big, PseudoBytes(src, dst, proto, len))) == Sum(PseudoHeader(big, src, dst, proto, len))
  {
    var h, t := [src.a, src.b, src.c, src.d, dst.a, dst.b, dst.c, dst.d], [0, proto, len / 256, len % 256];
    assert PseudoBytes(src, dst, proto, len) == h + t;
    WordsAppend(big, h, t);
    SumAppend(Words(big, h), Words(big, t));
    SumOfEight(big, src.a, src.b, src.c, src.d, dst.a, dst.b, dst.c, dst.d);
    SumStep(big, t);
    assert t[2..] == [len / 256, len % 256];
    SumStep(big, t[2..]);
    assert t[2..][2..] == [];
    SumOfSix(Load(big, src.a, src.b), Load(big, src.c, src.d), Load(big, dst.a, dst.b), Load(big, dst.c, dst.d),
             Load(big, 0, proto), Htons(big, len));
  }

  /** What is accumulated folds to the sum of the bytes of pseudo-header and segment. */
  lemma AccumulatedFolds(big: bool, src: Addr, dst: Addr, proto: Byte, len: Word, s: seq<Byte>)
    ensures Fold(Accumulated(big, src, dst, proto, len, s))
         == Fold(Sum(Words(big, PseudoBytes(src, dst, proto, len) + s)))
  {
    var p := PseudoBytes(src, dst, proto, len);
    WordsAppend(big, p, s);
    SumAppend(Words(big, p), Words(big, s));
    SumOfTwelve(big, src, dst, proto, len);
    PseudoSum(big, src, dst, proto, len, Sum(Words(big, s)));
    FoldIsCanon(Accumulated(big, src, dst, proto, len, s));
    FoldIsCanon(Sum(Words(big, p + s)));
  }

  /** The checksum of a segment is the same two bytes in either order, where neither sum overflows. */
  lemma SegmentSameBytes(src: Addr, dst: Addr, proto: Byte, s: seq<Byte>, a: Byte, b: Byte)
    requires |s| < 0x10000
    requires forall big :: Accumulated(big, src, dst, proto, |s|, s) < WORD
    ensures Load(true, a, b) == 0xFFFF - Fold(Accumulated(true, src, dst, proto, |s|, s) % WORD)
       <==> Load(false, a, b) == 0xFFFF - Fold(Accumulated(false, src, dst, proto, |s|, s) % WORD)
  {
    AccumulatedFolds(true, src, dst, proto, |s|, s);
    AccumulatedFolds(false, src, dst, proto, |s|, s);
    ByteOrder(PseudoBytes(src, dst, proto, |s|) + s);
    SameStored(Accumulated(true, src, dst, proto, |s|, s), Accumulated(false, src, dst, proto, |s|, s), a, b);
  }

  /** 192.168.0.1 as it is loaded, and what is accumulated for a segment without data */
  lemma LoadExample(big: bool)
    ensures Load32(big, Addr(192, 168, 0, 1)) == if big then 0xC0A8_0001 else 0x0100_A8C0
    ensures Accumulated(big, Addr(192, 168, 0, 1), Addr(10, 0, 0, 2), 17, 0x1234, [])
         == if big then 0xC0A8_0001 + 0x0A00_0002 + 0x0011 + 0x1234 else 0x0100_A8C0 + 0x0200_000A + 0x1100 + 0x3412
  {
  }

  /** A UDP header from port 53 to port 1024 without data. */
  const DATAGRAM: seq<Byte> := [0, 53, 4, 0, 0, 8, 0, 0]

  /** Two hosts of one private network: the accumulator overflows and the checksum is wrong, in
      either byte order. */
  lemma OverflowExample(big: bool)
    ensures var src, dst := if big then Addr(192, 168, 0, 1) else Addr(192, 168, 0, 100), Addr(192, 168, 0, 200);
            Fold(Accumulated(big, src, dst, 17, 8, DATAGRAM) % WORD)
            != OnesSum(0, PseudoHeader(big, src, dst, 17, 8) + Words(big, DATAGRAM))
  {
    var src := if big then Addr(192, 168, 0, 1) else Addr(192, 168, 0, 100);
    TcpUdpIffNoOverflow(big, src, Addr(192, 168, 0, 200), 17, DATAGRAM);
  }

  /** udp_checksum and tcp_checksum: the checksum field at `off` is zeroed for the computation
      and put back. */
  method WithFieldZeroed(big: bool, src: Addr, dst: Addr, proto: Byte, buf: array<Byte>, off: nat) returns (c: Word)
    requires buf.Length < 0x10000 && off + 2 <= buf.Length
    modifies buf
    ensures buf[..] == old(buf[..])
    ensures var zeroed := old(buf[..])[off := 0][off + 1 := 0];
            c == 0xFFFF - Fold(Accumulated(big, src, dst, proto, buf.Length, zeroed) % WORD)
  {
    var a, b := buf[off], buf[off + 1];
    buf[off], buf[off + 1] := 0, 0;
    assert buf[..] == old(buf[..])[off := 0][off + 1 := 0];
    c := TcpUdp(big, src, dst, proto, buf[..]);
    buf[off], buf[off + 1] := a, b;
  }
}
